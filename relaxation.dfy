/**
 * Longest distances from one start node by bounded edge relaxation (`bellman_ford`): |V| - 1
 * rounds, each relaxing every edge in iteration order with a strict comparison and recording
 * the predecessor. Every edge has weight 1, since the builder gives each one `peso=1`.
 */
module Relaxation {
  import opened Wrappers
  import opened DiGraph

  /** `float('-inf')` or a finite distance; -inf plus one stays -inf. */
  datatype Dist = NegInf | Fin(n: int)

  function Plus1(d: Dist): Dist {
    match d
    case NegInf => NegInf
    case Fin(n) => Fin(n + 1)
  }

  /** Python's `a > b` on these values: -inf is greater than nothing. */
  predicate Greater(a: Dist, b: Dist) {
    a.Fin? && (b.NegInf? || a.n > b.n)
  }

  /** `a <= b`. */
  predicate AtMost(a: Dist, b: Dist) {
    a.NegInf? || (b.Fin? && a.n <= b.n)
  }

  /** The two dictionaries `dist` and `predecessor`. */
  datatype Labels = Labels(dist: map<Node, Dist>, pred: map<Node, Option<Node>>)

  /** Both dictionaries have exactly the graph's nodes as keys. */
  ghost predicate Over(g: Graph, L: Labels) {
    L.dist.Keys == g.succ.Keys && L.pred.Keys == g.succ.Keys
  }

  /** Every edge of `es` is an edge of `g`. */
  ghost predicate EdgesOf(g: Graph, es: seq<(Node, Node)>) {
    forall i :: 0 <= i < |es| ==> HasEdge(g, es[i].0, es[i].1)
  }

  /** Lines 29-31: the start at 0, every other node at -inf, no predecessors. */
  function Init(g: Graph, s: Node): (L: Labels)
    requires Valid(g) && s in g.nodes
    ensures Over(g, L)
    ensures L.dist[s] == Fin(0)
    ensures forall n :: n in g.nodes && n != s ==> L.dist[n] == NegInf
    ensures forall n :: n in g.nodes ==> L.pred[n] == None
  {
    Labels(map n | n in g.succ :: if n == s then Fin(0) else NegInf, map n | n in g.succ :: None)
  }

  /** Lines 37-39 for one edge `(u, v)`: `v` rises to `dist[u] + 1` when that is strictly
      larger, and then records `u` as its predecessor; on a tie nothing changes. */
  function RelaxEdge(L: Labels, u: Node, v: Node): (r: Labels)
    requires u in L.dist && v in L.dist
    ensures r.dist.Keys == L.dist.Keys
    ensures forall n :: n in L.dist && n != v ==> r.dist[n] == L.dist[n]
    ensures AtMost(L.dist[v], r.dist[v]) && AtMost(Plus1(L.dist[u]), r.dist[v])
    ensures r.dist[v] == L.dist[v] || r.dist[v] == Plus1(L.dist[u])
    ensures r.dist[v] == L.dist[v] ==> r == L
    ensures r.dist[v] != L.dist[v] ==> r.pred == L.pred[v := Some(u)]
  {
    if Greater(Plus1(L.dist[u]), L.dist[v]) then Labels(L.dist[v := Plus1(L.dist[u])], L.pred[v := Some(u)])
    else L
  }

  /** One pass of the inner loop over the edges of `es`, in order. */
  function RelaxAll(g: Graph, L: Labels, es: seq<(Node, Node)>): (r: Labels)
    requires Valid(g) && Over(g, L) && EdgesOf(g, es)
    ensures Over(g, r)
  {
    if es == [] then L
    else
      var e := es[|es| - 1];
      var P := RelaxAll(g, L, es[..|es| - 1]);
      RelaxEdge(P, e.0, e.1)
  }

  lemma EdgesAreEdges(g: Graph)
    requires Valid(g)
    ensures EdgesOf(g, Edges(g))
  {
    var es := Edges(g);
    forall i | 0 <= i < |es| ensures HasEdge(g, es[i].0, es[i].1) {
      assert es[i] in es;
    }
  }

  /** The labels after `k` rounds over all edges. */
  function Rounds(g: Graph, L: Labels, es: seq<(Node, Node)>, k: nat): (r: Labels)
    requires Valid(g) && Over(g, L) && EdgesOf(g, es)
    ensures Over(g, r)
  {
    if k == 0 then L
    else RelaxAll(g, Rounds(g, L, es, k - 1), es)
  }

  /** `len(grafo) - 1`, the number of rounds; the graph has at least the start node. */
  function Passes(g: Graph): (k: nat)
    requires |g.nodes| >= 1
    ensures k + 1 == |g.nodes|
  {
    |g.nodes| - 1
  }

  /** What `bellman_ford(grafo, inicio)` returns: |V| - 1 rounds from the initial labels. On
      any graph the start never drops below 0. */
  function Run(g: Graph, s: Node): (r: Labels)
    requires Valid(g) && s in g.nodes
    ensures Over(g, r)
    ensures AtMost(Fin(0), r.dist[s])
  {
    EdgesAreEdges(g);
    RoundsMonotone(g, Init(g, s), Edges(g), 0, Passes(g), s);
    Rounds(g, Init(g, s), Edges(g), Passes(g))
  }

  /** `bellman_ford` (lines 27-41). `checks` counts the comparisons of line 37. */
  method BellmanFord(g: Graph, start: Node)
    returns (dist: map<Node, Dist>, pred: map<Node, Option<Node>>, ghost checks: nat)
    requires Valid(g) && start in g.nodes
    ensures Labels(dist, pred) == Run(g, start)
    ensures checks == Passes(g) * |Edges(g)|
  {
    assert |g.nodes| >= 1;
    var L0 := Init(g, start);
    dist, pred := L0.dist, L0.pred;
    var es := Edges(g);
    EdgesAreEdges(g);
    checks := 0;
    for round := 0 to Passes(g)
      invariant Labels(dist, pred) == Rounds(g, L0, es, round)
      invariant checks == round * |es|
    {
      ghost var passChecks;
      dist, pred, passChecks := RelaxPass(g, dist, pred, es);
      MulStep(round, |es|);
      checks := checks + passChecks;
    }
  }

  lemma MulStep(a: nat, b: nat)
    ensures (a + 1) * b == a * b + b
  {
  }

  /** The inner loop of lines 35-39: every edge of `es` in order, with the strict test.
      `checks` counts the comparisons of line 37: one per edge. */
  method RelaxPass(g: Graph, dist0: map<Node, Dist>, pred0: map<Node, Option<Node>>, es: seq<(Node, Node)>)
    returns (dist: map<Node, Dist>, pred: map<Node, Option<Node>>, ghost checks: nat)
    requires Valid(g) && Over(g, Labels(dist0, pred0)) && EdgesOf(g, es)
    ensures Labels(dist, pred) == RelaxAll(g, Labels(dist0, pred0), es)
    ensures checks == |es|
  {
    dist, pred := dist0, pred0;
    checks := 0;
    for j := 0 to |es|
      invariant Labels(dist, pred) == RelaxAll(g, Labels(dist0, pred0), es[..j])
      invariant checks == j
    {
      var (u, v) := es[j];
      RelaxAllStep(g, Labels(dist0, pred0), es, j);
      checks := checks + 1;
      if Greater(Plus1(dist[u]), dist[v]) {
        dist := dist[v := Plus1(dist[u])];
        pred := pred[v := Some(u)];
      }
    }
    TakeAll(es);
  }

  lemma RelaxAllStep(g: Graph, L: Labels, es: seq<(Node, Node)>, j: nat)
    requires Valid(g) && Over(g, L) && EdgesOf(g, es) && j < |es|
    ensures EdgesOf(g, es[..j]) && EdgesOf(g, es[..j + 1])
    ensures es[j].0 in RelaxAll(g, L, es[..j]).dist && es[j].1 in RelaxAll(g, L, es[..j]).dist
    ensures RelaxAll(g, L, es[..j + 1]) == RelaxEdge(RelaxAll(g, L, es[..j]), es[j].0, es[j].1)
  {
    assert es[..j + 1][..j] == es[..j];
  }

  /** `a <= b <= c`. */
  lemma AtMostTrans(a: Dist, b: Dist, c: Dist)
    requires AtMost(a, b) && AtMost(b, c)
    ensures AtMost(a, c)
  {
  }

  /** `v` can be reached from `s` at all. */
  ghost predicate Reaches(g: Graph, s: Node, v: Node) {
    exists d: nat :: ReachableIn(g, s, v, d)
  }

  /** What line 39 records: `u` is an in-neighbour of `v`, both are finite, and `v` is at
      least one and at most one more than `u`. */
  ghost predicate PredLink(g: Graph, L: Labels, u: Node, v: Node)
    requires Over(g, L) && v in L.dist
  {
    && HasEdge(g, u, v) && u in L.dist
    && L.dist[u].Fin? && L.dist[v].Fin? && 1 <= L.dist[v].n <= L.dist[u].n + 1
  }

  /** Each finite distance is the length of some walk from `s`. */
  ghost predicate DistWalks(g: Graph, s: Node, L: Labels) {
    forall n :: n in L.dist && L.dist[n].Fin? ==> L.dist[n].n >= 0 && ReachableIn(g, s, n, L.dist[n].n)
  }

  /** A node without predecessor still has its initial distance. */
  ghost predicate UnlinkedInitial(s: Node, L: Labels) {
    forall n :: n in L.pred && L.pred[n].None? ==> n in L.dist && L.dist[n] == if n == s then Fin(0) else NegInf
  }

  /** Each predecessor is a real in-neighbour, as line 39 records it. */
  ghost predicate LinksAreEdges(g: Graph, L: Labels)
    requires Over(g, L)
  {
    forall n :: n in L.pred && L.pred[n].Some? ==> PredLink(g, L, L.pred[n].value, n)
  }

  /** What the two dictionaries keep through every relaxation from start `s`. */
  ghost predicate Invariant(g: Graph, s: Node, L: Labels) {
    Over(g, L) && DistWalks(g, s, L) && UnlinkedInitial(s, L) && LinksAreEdges(g, L)
  }

  lemma InitInvariant(g: Graph, s: Node)
    requires Valid(g) && s in g.nodes
    ensures Invariant(g, s, Init(g, s))
  {
  }

  /** One relaxation keeps the invariant. */
  lemma RelaxEdgeKeeps(g: Graph, s: Node, L: Labels, u: Node, v: Node)
    requires Valid(g) && Invariant(g, s, L) && HasEdge(g, u, v)
    ensures Invariant(g, s, RelaxEdge(L, u, v))
  {
    if Greater(Plus1(L.dist[u]), L.dist[v]) {
      RelaxEdgeWalks(g, s, L, u, v);
      RelaxEdgeLinks(g, s, L, u, v);
      RelaxEdgeUnlinked(s, L, u, v);
    }
  }

  lemma RelaxEdgeUnlinked(s: Node, L: Labels, u: Node, v: Node)
    requires u in L.dist && v in L.dist && UnlinkedInitial(s, L)
    ensures UnlinkedInitial(s, RelaxEdge(L, u, v))
  {
    var R := RelaxEdge(L, u, v);
    forall n | n in R.pred && R.pred[n].None? ensures n in R.dist && R.dist[n] == if n == s then Fin(0) else NegInf {
      assert n != v || R == L;
    }
  }

  lemma RelaxEdgeWalks(g: Graph, s: Node, L: Labels, u: Node, v: Node)
    requires Valid(g) && Over(g, L) && DistWalks(g, s, L) && HasEdge(g, u, v)
    ensures DistWalks(g, s, RelaxEdge(L, u, v))
  {
    if Greater(Plus1(L.dist[u]), L.dist[v]) {
      assert ReachableIn(g, s, v, L.dist[u].n + 1);
    }
  }

  lemma RelaxEdgeLinks(g: Graph, s: Node, L: Labels, u: Node, v: Node)
    requires Valid(g) && Over(g, L) && DistWalks(g, s, L) && LinksAreEdges(g, L) && HasEdge(g, u, v)
    ensures Over(g, RelaxEdge(L, u, v)) && LinksAreEdges(g, RelaxEdge(L, u, v))
  {
    var R := RelaxEdge(L, u, v);
    forall n | n in R.pred && R.pred[n].Some? ensures PredLink(g, R, R.pred[n].value, n) {
      if n != v {
        var w := L.pred[n].value;
        assert PredLink(g, L, w, n);
        assert AtMost(L.dist[w], R.dist[w]);
      }
    }
  }

  lemma RelaxEdgeMonotone(L: Labels, u: Node, v: Node, n: Node)
    requires u in L.dist && v in L.dist && n in L.dist
    ensures AtMost(L.dist[n], RelaxEdge(L, u, v).dist[n])
  {
  }

  /** A pass keeps the invariant. */
  lemma {:induction false} RelaxAllKeeps(g: Graph, s: Node, L: Labels, es: seq<(Node, Node)>)
    requires Valid(g) && Invariant(g, s, L) && EdgesOf(g, es)
    ensures Invariant(g, s, RelaxAll(g, L, es))
  {
    if es != [] {
      var init := es[..|es| - 1];
      RelaxAllKeeps(g, s, L, init);
      RelaxEdgeKeeps(g, s, RelaxAll(g, L, init), es[|es| - 1].0, es[|es| - 1].1);
    }
  }

  /** A pass never lowers a distance. */
  lemma {:induction false} RelaxAllMonotone(g: Graph, L: Labels, es: seq<(Node, Node)>, n: Node)
    requires Valid(g) && Over(g, L) && EdgesOf(g, es) && n in g.nodes
    ensures AtMost(L.dist[n], RelaxAll(g, L, es).dist[n])
  {
    if es != [] {
      var init := es[..|es| - 1];
      RelaxAllMonotone(g, L, init, n);
      var P := RelaxAll(g, L, init);
      RelaxEdgeMonotone(P, es[|es| - 1].0, es[|es| - 1].1, n);
      AtMostTrans(L.dist[n], P.dist[n], RelaxAll(g, L, es).dist[n]);
    }
  }

  /** After a pass, the target of each edge it relaxed is at least one more than the source
      was before the pass. */
  lemma {:induction false} RelaxAllReaches(g: Graph, L: Labels, es: seq<(Node, Node)>, i: nat)
    requires Valid(g) && Over(g, L) && EdgesOf(g, es) && i < |es|
    ensures AtMost(Plus1(L.dist[es[i].0]), RelaxAll(g, L, es).dist[es[i].1])
  {
    var init := es[..|es| - 1];
    var (u, v) := es[|es| - 1];
    var P := RelaxAll(g, L, init);
    var R := RelaxAll(g, L, es);
    if i == |es| - 1 {
      RelaxAllMonotone(g, L, init, u);
      assert AtMost(Plus1(P.dist[u]), R.dist[v]);
    } else {
      assert init[i] == es[i];
      RelaxAllReaches(g, L, init, i);
      RelaxEdgeMonotone(P, u, v, es[i].1);
      AtMostTrans(Plus1(L.dist[es[i].0]), P.dist[es[i].1], R.dist[es[i].1]);
    }
  }

  /** Every round keeps the invariant. */
  lemma RoundsKeep(g: Graph, s: Node, L: Labels, es: seq<(Node, Node)>, k: nat)
    requires Valid(g) && Invariant(g, s, L) && EdgesOf(g, es)
    ensures Invariant(g, s, Rounds(g, L, es, k))
  {
    if k > 0 {
      RoundsKeep(g, s, L, es, k - 1);
      RoundKeeps(g, s, L, es, k);
    }
  }

  lemma RoundKeeps(g: Graph, s: Node, L: Labels, es: seq<(Node, Node)>, k: nat)
    requires Valid(g) && Over(g, L) && EdgesOf(g, es) && k > 0
    requires Invariant(g, s, Rounds(g, L, es, k - 1))
    ensures Invariant(g, s, Rounds(g, L, es, k))
  {
    RelaxAllKeeps(g, s, Rounds(g, L, es, k - 1), es);
  }

  /** Later rounds never lower a distance. */
  lemma RoundsMonotone(g: Graph, L: Labels, es: seq<(Node, Node)>, j: nat, k: nat, n: Node)
    requires Valid(g) && Over(g, L) && EdgesOf(g, es) && j <= k && n in g.nodes
    ensures AtMost(Rounds(g, L, es, j).dist[n], Rounds(g, L, es, k).dist[n])
    decreases k
  {
    if j < k {
      RoundsMonotone(g, L, es, j, k - 1, n);
      RoundMonotone(g, L, es, k, n);
      AtMostTrans(Rounds(g, L, es, j).dist[n], Rounds(g, L, es, k - 1).dist[n], Rounds(g, L, es, k).dist[n]);
    }
  }

  lemma RoundMonotone(g: Graph, L: Labels, es: seq<(Node, Node)>, k: nat, n: Node)
    requires Valid(g) && Over(g, L) && EdgesOf(g, es) && n in g.nodes && k > 0
    ensures AtMost(Rounds(g, L, es, k - 1).dist[n], Rounds(g, L, es, k).dist[n])
  {
    RelaxAllMonotone(g, Rounds(g, L, es, k - 1), es, n);
  }

  /** After `d` rounds from the initial labels, a node reached by a walk of `d` edges is at
      least `d`. */
  lemma {:induction false} RoundsReach(g: Graph, s: Node, v: Node, d: nat)
    requires Valid(g) && s in g.nodes && ReachableIn(g, s, v, d)
    ensures EdgesOf(g, Edges(g))
    ensures v in g.nodes && AtMost(Fin(d), Rounds(g, Init(g, s), Edges(g), d).dist[v])
    decreases d
  {
    EdgesAreEdges(g);
    if d > 0 {
      var u :| HasEdge(g, u, v) && ReachableIn(g, s, u, d - 1);
      RoundsReach(g, s, u, d - 1);
      assert (u, v) in Edges(g);
      RoundExtends(g, Init(g, s), Edges(g), d, u, v, d - 1);
    }
  }

  /** A round carries a walk one edge further. */
  lemma RoundExtends(g: Graph, L: Labels, es: seq<(Node, Node)>, k: nat, u: Node, v: Node, d: nat)
    requires Valid(g) && Over(g, L) && EdgesOf(g, es) && k > 0 && (u, v) in es && u in g.nodes
    requires AtMost(Fin(d), Rounds(g, L, es, k - 1).dist[u])
    ensures v in g.nodes && AtMost(Fin(d + 1), Rounds(g, L, es, k).dist[v])
  {
    var i :| 0 <= i < |es| && es[i] == (u, v);
    RelaxAllReaches(g, Rounds(g, L, es, k - 1), es, i);
  }

  /** `bellman_ford`'s results from start `s` satisfy the invariant: each finite distance is the
      length of a walk from `s`, a node without predecessor keeps its initial distance, and each
      predecessor is an in-neighbour whose finite distance is at least one less. */
  lemma RunInvariant(g: Graph, s: Node)
    requires Valid(g) && s in g.nodes
    ensures Invariant(g, s, Run(g, s))
  {
    assert |g.nodes| >= 1;
    var k := Passes(g);
    InitInvariant(g, s);
    EdgesAreEdges(g);
    RoundsKeep(g, s, Init(g, s), Edges(g), k);
  }

  /** A node that no walk from the start reaches keeps -inf. */
  lemma RunUnreachable(g: Graph, s: Node, v: Node)
    requires Valid(g) && s in g.nodes && v in g.nodes && !Reaches(g, s, v)
    ensures Run(g, s).dist[v] == NegInf
  {
    RunInvariant(g, s);
  }

  /** On an acyclic graph the result is the longest-walk length: -inf exactly for the nodes the
      start does not reach, and otherwise the length of a walk from the start that no other
      walk from the start exceeds. */
  lemma RunLongestPath(g: Graph, rank: map<Node, nat>, s: Node, v: Node)
    requires Valid(g) && TopoRank(g, rank) && s in g.nodes && v in g.nodes
    ensures Run(g, s).dist[v].NegInf? <==> !Reaches(g, s, v)
    ensures Run(g, s).dist[v].Fin? ==> Run(g, s).dist[v].n >= 0 && ReachableIn(g, s, v, Run(g, s).dist[v].n)
    ensures forall d: nat :: ReachableIn(g, s, v, d) ==> AtMost(Fin(d), Run(g, s).dist[v])
  {
    RunInvariant(g, s);
    forall d: nat | ReachableIn(g, s, v, d) ensures AtMost(Fin(d), Run(g, s).dist[v]) {
      RunCoversWalk(g, rank, s, v, d);
    }
    if !Reaches(g, s, v) {
      RunUnreachable(g, s, v);
    }
  }

  /** On an acyclic graph every walk from the start has at most |V| - 1 edges, so the rounds
      have relaxed it completely. */
  lemma RunCoversWalk(g: Graph, rank: map<Node, nat>, s: Node, v: Node, d: nat)
    requires Valid(g) && TopoRank(g, rank) && s in g.nodes && ReachableIn(g, s, v, d)
    ensures v in g.nodes && AtMost(Fin(d), Run(g, s).dist[v])
  {
    assert |g.nodes| >= 1;
    var k := Passes(g);
    ReachRaisesRank(g, rank, s, v, d);
    RoundsCoverWalk(g, s, v, d, k);
  }

  lemma RoundsCoverWalk(g: Graph, s: Node, v: Node, d: nat, k: nat)
    requires Valid(g) && s in g.nodes && ReachableIn(g, s, v, d) && d <= k
    ensures EdgesOf(g, Edges(g))
    ensures v in g.nodes && AtMost(Fin(d), Rounds(g, Init(g, s), Edges(g), k).dist[v])
  {
    RoundsReach(g, s, v, d);
    RoundsMonotone(g, Init(g, s), Edges(g), d, k, v);
    AtMostTrans(Fin(d), Rounds(g, Init(g, s), Edges(g), d).dist[v], Rounds(g, Init(g, s), Edges(g), k).dist[v]);
  }

  /** On an acyclic graph each recorded predecessor is exactly one less than its node: the
      predecessor links follow a longest walk. */
  lemma RunPredTight(g: Graph, rank: map<Node, nat>, s: Node, v: Node)
    requires Valid(g) && TopoRank(g, rank) && s in g.nodes && v in g.nodes
    requires Run(g, s).pred[v].Some?
    ensures Run(g, s).pred[v].value in g.nodes
    ensures Run(g, s).dist[v] == Plus1(Run(g, s).dist[Run(g, s).pred[v].value])
  {
    RunInvariant(g, s);
    RunCovers(g, rank, s);
    LinkTight(g, s, Run(g, s), v);
  }

  /** Every walk from `s` is covered: no node is below the length of a walk reaching it. */
  ghost predicate Covers(g: Graph, s: Node, L: Labels) {
    forall n, d: nat :: n in L.dist && ReachableIn(g, s, n, d) ==> AtMost(Fin(d), L.dist[n])
  }

  lemma RunCovers(g: Graph, rank: map<Node, nat>, s: Node)
    requires Valid(g) && TopoRank(g, rank) && s in g.nodes
    ensures Covers(g, s, Run(g, s))
  {
    forall n, d: nat | n in Run(g, s).dist && ReachableIn(g, s, n, d) ensures AtMost(Fin(d), Run(g, s).dist[n]) {
      RunCoversWalk(g, rank, s, n, d);
    }
  }

  /** Where every walk is covered, a predecessor is exactly one less than its node. */
  lemma LinkTight(g: Graph, s: Node, L: Labels, v: Node)
    requires Invariant(g, s, L) && Covers(g, s, L) && v in L.pred && L.pred[v].Some?
    ensures L.pred[v].value in L.dist && L.dist[v] == Plus1(L.dist[L.pred[v].value])
  {
    var u := L.pred[v].value;
    assert PredLink(g, L, u, v);
    var du: nat := L.dist[u].n;
    assert ReachableIn(g, s, u, du);
    assert ReachableIn(g, s, v, du + 1);
  }


}
