/**
 * The directed graph the critical-path code works on (a networkx `DiGraph`), reduced to what
 * the code uses: nodes in insertion order, the `nome` attribute of the nodes that carry one,
 * and each node's successors in insertion order. Edge iteration follows networkx: node by
 * node in insertion order, and for each node its successors in insertion order.
 */
module DiGraph {

  type Node = string

  /** `names` holds only the nodes that were given a `nome`; a node created implicitly by
      adding an edge has none. */
  datatype Graph = Graph(nodes: seq<Node>, names: map<Node, string>, succ: map<Node, seq<Node>>)

  predicate Distinct<T(==)>(s: seq<T>) {
    forall i, j :: 0 <= i < j < |s| ==> s[i] != s[j]
  }

  /** The shape networkx maintains: an adjacency list per node, and only nodes as endpoints
      and as named entries. */
  ghost predicate Valid(g: Graph) {
    && (forall n :: n in g.succ <==> n in g.nodes)
    && (forall n :: n in g.names ==> n in g.nodes)
    && (forall u, v :: u in g.succ && v in g.succ[u] ==> v in g.nodes)
  }

  /** No node is listed twice and no edge is stored twice. */
  ghost predicate NoRepeats(g: Graph) {
    Distinct(g.nodes) && forall u :: u in g.succ ==> Distinct(g.succ[u])
  }

  const Empty: Graph := Graph([], map[], map[])

  predicate HasEdge(g: Graph, u: Node, v: Node) {
    u in g.succ && v in g.succ[u]
  }

  /** Python's in-degree 0: no edge ends at `v`. */
  predicate InDegreeZero(g: Graph, v: Node) {
    forall u :: u in g.succ ==> v !in g.succ[u]
  }

  /** A node created without attributes, as `add_edge` does for a missing endpoint. */
  function AddBareNode(g: Graph, n: Node): (r: Graph)
    requires Valid(g)
    ensures Valid(r)
    ensures n in r.nodes && r.names == g.names
    ensures r.nodes == AppendNew(g.nodes, n)
    ensures forall u, v :: HasEdge(r, u, v) <==> HasEdge(g, u, v)
  {
    if n in g.succ then g
    else Graph(g.nodes + [n], g.names, g.succ[n := []])
  }

  /** `ns` with `n` appended unless it is already there: how networkx adds a node. */
  function AppendNew(ns: seq<Node>, n: Node): (r: seq<Node>)
    ensures n in r && |ns| <= |r| && r[..|ns|] == ns
    ensures forall x :: x in r <==> x in ns || x == n
    ensures Distinct(ns) ==> Distinct(r)
  {
    if n in ns then ns else ns + [n]
  }

  /** `ns` followed by the entries of `xs` it lacks, each at its first mention. */
  function Appended(ns: seq<Node>, xs: seq<Node>): (r: seq<Node>)
    ensures |ns| <= |r| && r[..|ns|] == ns
    ensures forall x :: x in r <==> x in ns || x in xs
  {
    if xs == [] then ns
    else
      var a := Appended(ns, xs[..|xs| - 1]);
      assert forall x :: x in xs <==> x in xs[..|xs| - 1] || x == xs[|xs| - 1];
      assert AppendNew(a, xs[|xs| - 1])[..|ns|] == AppendNew(a, xs[|xs| - 1])[..|a|][..|ns|];
      AppendNew(a, xs[|xs| - 1])
  }

  /** Appending `xs + ys` is appending `xs`, then `ys`. */
  lemma {:induction false} AppendedConcat(ns: seq<Node>, xs: seq<Node>, ys: seq<Node>)
    ensures Appended(ns, xs + ys) == Appended(Appended(ns, xs), ys)
  {
    if ys == [] {
      assert xs + ys == xs;
    } else {
      var ys0 := ys[..|ys| - 1];
      AppendedConcat(ns, xs, ys0);
      assert (xs + ys)[..|xs + ys| - 1] == xs + ys0;
    }
  }

  /** `add_node(n, nome=x)`: adds `n` at the end if it is new, and sets or overwrites its name. */
  function AddNamedNode(g: Graph, n: Node, nome: string): (r: Graph)
    requires Valid(g)
    ensures Valid(r)
    ensures r.nodes == AppendNew(g.nodes, n)
    ensures r.names == g.names[n := nome]
    ensures forall u, v :: HasEdge(r, u, v) <==> HasEdge(g, u, v)
  {
    var h := AddBareNode(g, n);
    h.(names := h.names[n := nome])
  }

  /** `add_edge(u, v)`: creates missing endpoints (u first) without a name and appends `v` to
      the successors of `u` unless the edge is already there. */
  function AddEdge(g: Graph, u: Node, v: Node): (r: Graph)
    requires Valid(g)
    ensures Valid(r)
    ensures r.names == g.names
    ensures forall n :: n in r.nodes <==> n in g.nodes || n == u || n == v
    ensures r.nodes == AppendNew(AppendNew(g.nodes, u), v)
    ensures forall x, y :: HasEdge(r, x, y) <==> HasEdge(g, x, y) || (x == u && y == v)
  {
    var h1 := AddBareNode(g, u);
    var h := AddBareNode(h1, v);
    if v in h.succ[u] then h
    else
      AppendSuccEdges(h, u, v);
      h.(succ := h.succ[u := h.succ[u] + [v]])
  }

  /** Appending `v` to the successors of `u` adds exactly the edge `u -> v`. */
  lemma AppendSuccEdges(h: Graph, u: Node, v: Node)
    requires u in h.succ
    ensures forall x, y :: HasEdge(h.(succ := h.succ[u := h.succ[u] + [v]]), x, y) <==>
      HasEdge(h, x, y) || (x == u && y == v)
  {
    var r := h.(succ := h.succ[u := h.succ[u] + [v]]);
    forall x, y ensures HasEdge(r, x, y) <==> HasEdge(h, x, y) || (x == u && y == v) {
      if x == u {
        assert y in h.succ[u] + [v] <==> y in h.succ[u] || y == v;
      }
    }
  }

  lemma TakeAll<T>(s: seq<T>)
    ensures s[..|s|] == s
  {
  }

  lemma DistinctAppend<T>(s: seq<T>, x: T)
    requires Distinct(s) && x !in s
    ensures Distinct(s + [x])
  {
  }

  lemma AddBareNodeNoRepeats(g: Graph, n: Node)
    requires Valid(g) && NoRepeats(g)
    ensures NoRepeats(AddBareNode(g, n))
  {
    if n !in g.succ {
      DistinctAppend(g.nodes, n);
    }
  }

  /** `add_node` and `add_edge` never store a node or an edge twice. */
  lemma AddNamedNodeNoRepeats(g: Graph, n: Node, nome: string)
    requires Valid(g) && NoRepeats(g)
    ensures NoRepeats(AddNamedNode(g, n, nome))
  {
    AddBareNodeNoRepeats(g, n);
  }

  lemma AddEdgeNoRepeats(g: Graph, u: Node, v: Node)
    requires Valid(g)
    ensures NoRepeats(g) ==> NoRepeats(AddEdge(g, u, v))
  {
    if NoRepeats(g) {
      var h1 := AddBareNode(g, u);
      AddBareNodeNoRepeats(g, u);
      var h := AddBareNode(h1, v);
      AddBareNodeNoRepeats(h1, v);
      if v !in h.succ[u] {
        AppendSuccNoRepeats(h, u, v);
      }
    }
  }

  /** Appending a successor not yet listed keeps every successor list free of repeats. */
  lemma AppendSuccNoRepeats(h: Graph, u: Node, v: Node)
    requires NoRepeats(h) && u in h.succ && v !in h.succ[u]
    ensures NoRepeats(h.(succ := h.succ[u := h.succ[u] + [v]]))
  {
    DistinctAppend(h.succ[u], v);
    var r := h.(succ := h.succ[u := h.succ[u] + [v]]);
    forall w | w in r.succ ensures Distinct(r.succ[w]) {
      if w != u {
        assert r.succ[w] == h.succ[w];
      }
    }
  }

  /** The edges leaving the nodes of `ns`, in adjacency order. */
  function EdgesFrom(g: Graph, ns: seq<Node>): (es: seq<(Node, Node)>)
    requires forall n :: n in ns ==> n in g.succ
    ensures forall e :: e in es <==> e.0 in ns && HasEdge(g, e.0, e.1)
  {
    if ns == [] then []
    else
      var u := ns[0];
      var out := seq(|g.succ[u]|, i requires 0 <= i < |g.succ[u]| => (u, g.succ[u][i]));
      var rest := EdgesFrom(g, ns[1..]);
      assert forall e :: e in out <==> e.0 == u && e.1 in g.succ[u] by {
        forall e: (Node, Node) | e.0 == u && e.1 in g.succ[u] ensures e in out {
          var i :| 0 <= i < |g.succ[u]| && g.succ[u][i] == e.1;
          assert out[i] == e;
        }
      }
      out + rest
  }

  /** `G.edges()`: every edge, and once only where no node and no edge is stored twice. */
  function Edges(g: Graph): (es: seq<(Node, Node)>)
    requires Valid(g)
    ensures forall e :: e in es <==> HasEdge(g, e.0, e.1)
    ensures NoRepeats(g) ==> Distinct(es)
  {
    EdgesDistinct(g);
    EdgesFrom(g, g.nodes)
  }

  /** Edges leave their sources in the order of `ns`. */
  ghost predicate SourcesInOrder(ns: seq<Node>, es: seq<(Node, Node)>) {
    forall i, j :: 0 <= i < j < |es| ==>
      exists a, b :: 0 <= a <= b < |ns| && ns[a] == es[i].0 && ns[b] == es[j].0
  }

  /** Edges with a common source appear in the order of that source's successors. */
  ghost predicate TargetsInOrder(g: Graph, es: seq<(Node, Node)>) {
    forall i, j :: 0 <= i < j < |es| && es[i].0 == es[j].0 && es[i].0 in g.succ ==>
      exists p, q :: (0 <= p < q < |g.succ[es[i].0]| &&
        g.succ[es[i].0][p] == es[i].1 && g.succ[es[i].0][q] == es[j].1)
  }

  /** `G.edges()` visits the nodes in insertion order and, for each, its successors in
      insertion order: this order decides which predecessor a tie records. */
  lemma EdgesOrder(g: Graph)
    requires Valid(g)
    ensures SourcesInOrder(g.nodes, Edges(g))
    ensures NoRepeats(g) ==> TargetsInOrder(g, Edges(g))
  {
    EdgesFromSources(g, g.nodes);
    if NoRepeats(g) {
      EdgesFromTargets(g, g.nodes);
    }
  }

  lemma {:induction false} EdgesFromSources(g: Graph, ns: seq<Node>)
    requires forall n :: n in ns ==> n in g.succ
    ensures SourcesInOrder(ns, EdgesFrom(g, ns))
  {
    if ns != [] {
      var u := ns[0];
      var out := seq(|g.succ[u]|, i requires 0 <= i < |g.succ[u]| => (u, g.succ[u][i]));
      var rest := EdgesFrom(g, ns[1..]);
      var es := out + rest;
      assert EdgesFrom(g, ns) == es;
      EdgesFromSources(g, ns[1..]);
      forall i, j | 0 <= i < j < |es|
        ensures exists a, b :: 0 <= a <= b < |ns| && ns[a] == es[i].0 && ns[b] == es[j].0
      {
        if j < |out| {
          assert es[i] == out[i] && es[j] == out[j];
          assert ns[0] == es[i].0 && ns[0] == es[j].0;
        } else if i < |out| {
          assert es[i] == out[i] && es[j] == rest[j - |out|];
          assert es[j].0 in ns[1..];
          var b :| 0 <= b < |ns[1..]| && ns[1..][b] == es[j].0;
          assert ns[0] == es[i].0 && ns[b + 1] == es[j].0;
        } else {
          assert es[i] == rest[i - |out|] && es[j] == rest[j - |out|];
          var a, b :| 0 <= a <= b < |ns[1..]| && ns[1..][a] == es[i].0 && ns[1..][b] == es[j].0;
          assert ns[a + 1] == es[i].0 && ns[b + 1] == es[j].0;
        }
      }
    }
  }

  lemma {:induction false} EdgesFromTargets(g: Graph, ns: seq<Node>)
    requires forall n :: n in ns ==> n in g.succ
    requires Distinct(ns)
    ensures TargetsInOrder(g, EdgesFrom(g, ns))
  {
    if ns != [] {
      var u := ns[0];
      var out := seq(|g.succ[u]|, i requires 0 <= i < |g.succ[u]| => (u, g.succ[u][i]));
      var rest := EdgesFrom(g, ns[1..]);
      var es := out + rest;
      assert EdgesFrom(g, ns) == es;
      assert Distinct(ns[1..]) by {
        forall i, j | 0 <= i < j < |ns| - 1 ensures ns[1..][i] != ns[1..][j] {
          assert ns[1..][i] == ns[i + 1] && ns[1..][j] == ns[j + 1];
        }
      }
      EdgesFromTargets(g, ns[1..]);
      assert u !in ns[1..];
      forall j | |out| <= j < |es| ensures es[j] == rest[j - |out|] && es[j].0 != u {
        assert es[j] == rest[j - |out|];
        assert es[j] in rest;
      }
      forall i, j | 0 <= i < j < |es| && es[i].0 == es[j].0 && es[i].0 in g.succ
        ensures exists p, q :: (0 <= p < q < |g.succ[es[i].0]| &&
          g.succ[es[i].0][p] == es[i].1 && g.succ[es[i].0][q] == es[j].1)
      {
        if j < |out| {
          assert es[i] == out[i] && es[j] == out[j];
        } else {
          assert i >= |out|;
          assert es[i] == rest[i - |out|] && es[j] == rest[j - |out|];
        }
      }
    }
  }

  lemma EdgesDistinct(g: Graph)
    requires Valid(g)
    ensures NoRepeats(g) ==> Distinct(EdgesFrom(g, g.nodes))
  {
    if NoRepeats(g) {
      EdgesFromDistinct(g, g.nodes);
    }
  }

  /** Distinct nodes with distinct successors give distinct edges. */
  lemma {:induction false} EdgesFromDistinct(g: Graph, ns: seq<Node>)
    requires forall n :: n in ns ==> n in g.succ && Distinct(g.succ[n])
    requires Distinct(ns)
    ensures Distinct(EdgesFrom(g, ns))
  {
    if ns != [] {
      var u := ns[0];
      var out := seq(|g.succ[u]|, i requires 0 <= i < |g.succ[u]| => (u, g.succ[u][i]));
      var rest := EdgesFrom(g, ns[1..]);
      assert Distinct(ns[1..]) by {
        forall i, j | 0 <= i < j < |ns| - 1 ensures ns[1..][i] != ns[1..][j] {
          assert ns[1..][i] == ns[i + 1] && ns[1..][j] == ns[j + 1];
        }
      }
      EdgesFromDistinct(g, ns[1..]);
      assert EdgesFrom(g, ns) == out + rest;
      assert forall e :: e in rest ==> e.0 in ns[1..];
      assert u !in ns[1..];
      DistinctConcat(out, rest);
    }
  }

  lemma DistinctConcat<T>(a: seq<T>, b: seq<T>)
    requires Distinct(a) && Distinct(b) && forall x :: x in a ==> x !in b
    ensures Distinct(a + b)
  {
    forall i, j | 0 <= i < j < |a + b| ensures (a + b)[i] != (a + b)[j] {
      if i < |a| && j >= |a| {
        assert (a + b)[i] in a && (a + b)[j] in b;
      }
    }
  }

  /** There is a walk of exactly `d` edges from `s` to `v`. */
  ghost predicate ReachableIn(g: Graph, s: Node, v: Node, d: nat)
    decreases d
  {
    if d == 0 then v == s
    else exists u :: HasEdge(g, u, v) && ReachableIn(g, s, u, d - 1)
  }

  /** Consecutive entries of `p` are joined by edges. */
  predicate EdgePath(g: Graph, p: seq<Node>) {
    forall i :: 0 <= i < |p| - 1 ==> HasEdge(g, p[i], p[i + 1])
  }

  /** A topological numbering: every node gets a number below |V| and every edge goes up.
      A graph with one has no cycle (`TopoRankAcyclic`); that every acyclic graph has one is
      the standard fact the model relies on when it uses the numbering for "acyclic". */
  ghost predicate TopoRank(g: Graph, rank: map<Node, nat>) {
    && (forall n :: n in g.nodes ==> n in rank && rank[n] < |g.nodes|)
    && (forall u, v :: HasEdge(g, u, v) ==> u in rank && v in rank && rank[u] < rank[v])
  }

  /** An edge path is a walk with one edge fewer than it has nodes. */
  lemma {:induction false} EdgePathReaches(g: Graph, p: seq<Node>)
    requires |p| >= 1 && EdgePath(g, p)
    ensures ReachableIn(g, p[0], p[|p| - 1], |p| - 1)
  {
    if |p| > 1 {
      var q := p[..|p| - 1];
      assert EdgePath(g, q);
      EdgePathReaches(g, q);
      assert HasEdge(g, q[|q| - 1], p[|p| - 1]);
    }
  }

  /** Walks compose. */
  lemma {:induction false} ReachConcat(g: Graph, s: Node, u: Node, v: Node, d1: nat, d2: nat)
    requires ReachableIn(g, s, u, d1) && ReachableIn(g, u, v, d2)
    ensures ReachableIn(g, s, v, d1 + d2)
    decreases d2
  {
    if d2 > 0 {
      var w :| HasEdge(g, w, v) && ReachableIn(g, u, w, d2 - 1);
      ReachConcat(g, s, u, w, d1, d2 - 1);
    }
  }

  /** Along a walk the topological number grows by at least one per edge, so on an acyclic
      graph no walk has more than |V| - 1 edges. */
  lemma {:induction false} ReachRaisesRank(g: Graph, rank: map<Node, nat>, s: Node, v: Node, d: nat)
    requires Valid(g) && TopoRank(g, rank) && s in g.nodes && ReachableIn(g, s, v, d)
    ensures v in g.nodes && v in rank && rank[v] >= rank[s] + d
    ensures d <= |g.nodes| - 1
    decreases d
  {
    if d > 0 {
      var u :| HasEdge(g, u, v) && ReachableIn(g, s, u, d - 1);
      ReachRaisesRank(g, rank, s, u, d - 1);
    }
  }

  /** A graph with a topological numbering has no cycle. */
  lemma TopoRankAcyclic(g: Graph, rank: map<Node, nat>, v: Node, d: nat)
    requires Valid(g) && TopoRank(g, rank) && v in g.nodes && d >= 1
    ensures !ReachableIn(g, v, v, d)
  {
    if ReachableIn(g, v, v, d) {
      ReachRaisesRank(g, rank, v, v, d);
    }
  }

  /** On an acyclic graph every node is reached from some node of in-degree 0, by walking
      edges backwards until none is left; a node with an incoming edge is reached by at least one. */
  lemma {:induction false} ReachedFromSource(g: Graph, rank: map<Node, nat>, v: Node)
    returns (s: Node, d: nat)
    requires Valid(g) && TopoRank(g, rank) && v in g.nodes
    ensures s in g.nodes && InDegreeZero(g, s) && ReachableIn(g, s, v, d)
    ensures !InDegreeZero(g, v) ==> d >= 1
    decreases rank[v]
  {
    if InDegreeZero(g, v) {
      s, d := v, 0;
    } else {
      var u :| u in g.succ && v in g.succ[u];
      assert HasEdge(g, u, v);
      var d0;
      s, d0 := ReachedFromSource(g, rank, u);
      d := d0 + 1;
    }
  }
}
