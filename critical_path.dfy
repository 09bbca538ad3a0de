/**
 * The critical-path driver (`calcular_caminho_critico`): one relaxation per start node (a node
 * of in-degree 0), the end node of largest distance for each, and the path of the first start
 * that strictly beats the best so far, which starts at 0. The path is mapped to task names and
 * the duration is the best distance plus one.
 */
module CriticalPath {
  import opened Wrappers
  import opened DiGraph
  import opened Relaxation
  import opened Reconstruction

  /** How the Python function ends: it raises because no start exists, it never returns
      because a predecessor chain is cyclic, it raises `KeyError` on a node without `nome`, or
      it returns the names along the path and the duration. */
  datatype Outcome =
    | NoStartNode
    | Hangs
    | MissingName(node: Node)
    | Critical(names: seq<string>, duration: int)

  /** The nodes of `ns` with in-degree 0, in order. */
  function Sources(g: Graph, ns: seq<Node>): (ss: seq<Node>)
    ensures forall n :: n in ss <==> n in ns && InDegreeZero(g, n)
    ensures |ss| <= |ns|
  {
    if ns == [] then []
    else
      var rest := Sources(g, ns[..|ns| - 1]);
      var n := ns[|ns| - 1];
      assert forall x :: x in ns <==> x in ns[..|ns| - 1] || x == n;
      if InDegreeZero(g, n) then rest + [n] else rest
  }

  /** Line 54: the start nodes, in node order. */
  function StartNodes(g: Graph): (ss: seq<Node>)
    ensures forall n :: n in ss <==> n in g.nodes && InDegreeZero(g, n)
  {
    Sources(g, g.nodes)
  }

  /** Line 68, `max(dist, key=dist.get)`: the position of the first entry of largest
      distance, scanning in order and replacing the candidate only on a strictly larger one. */
  function ArgMax(ns: seq<Node>, dist: map<Node, Dist>): (k: nat)
    requires |ns| >= 1 && forall n :: n in ns ==> n in dist
    ensures k < |ns|
    ensures forall i :: 0 <= i < |ns| ==> AtMost(dist[ns[i]], dist[ns[k]])
    ensures forall i :: 0 <= i < k ==> Greater(dist[ns[k]], dist[ns[i]])
  {
    if |ns| == 1 then 0
    else
      var k := ArgMax(ns[..|ns| - 1], dist);
      if Greater(dist[ns[|ns| - 1]], dist[ns[k]]) then |ns| - 1 else k
  }

  /** The end node picked from one relaxation's distances: the first node, in node order, of
      largest distance. */
  function EndOf(g: Graph, L: Labels): (fim: Node)
    requires Valid(g) && |g.nodes| >= 1 && Over(g, L)
    ensures fim in g.nodes && fim in L.dist && fim in L.pred
    ensures forall n :: n in g.nodes ==> AtMost(L.dist[n], L.dist[fim])
    ensures exists k :: (0 <= k < |g.nodes| && g.nodes[k] == fim
      && forall i :: 0 <= i < k ==> Greater(L.dist[fim], L.dist[g.nodes[i]]))
  {
    var k := ArgMax(g.nodes, L.dist);
    g.nodes[k]
  }

  /** The path kept so far and its distance (`caminho_critico`, `duracao_maxima`). */
  datatype Best = Best(path: seq<Node>, dur: int)

  /** What one start contributes (lines 65-70): the distance of the end node picked from its
      relaxation, and what reconstructing the path back from that node does. */
  datatype Candidate = Candidate(peak: Dist, walk: Walk)

  ghost function CandidateOf(g: Graph, L: Labels): Candidate
    requires Valid(g) && |g.nodes| >= 1 && Over(g, L)
  {
    var fim := EndOf(g, L);
    Candidate(L.dist[fim], TraceOf(L.pred, fim))
  }

  /** The candidates of the starts of `ss`, in order. */
  ghost function Candidates(g: Graph, ss: seq<Node>): (cs: seq<Candidate>)
    requires Valid(g) && forall s :: s in ss ==> s in g.nodes
    ensures |cs| == |ss| && forall k :: 0 <= k < |ss| ==> cs[k] == CandidateOf(g, Run(g, ss[k]))
  {
    seq(|ss|, k requires 0 <= k < |ss| => CandidateOf(g, Run(g, ss[k])))
  }

  /** Lines 69-71: a candidate replaces the best so far only when its distance is strictly
      greater; `None` once a reconstruction has run forever. */
  function Step(acc: Option<Best>, c: Candidate): (r: Option<Best>)
    ensures r.None? <==> acc.None? || (Greater(c.peak, Fin(acc.value.dur)) && c.walk.Diverges?)
    ensures r.Some? ==> acc.value.dur <= r.value.dur && AtMost(c.peak, Fin(r.value.dur))
    ensures r.Some? && r != acc ==>
      acc.value.dur < r.value.dur && c.peak == Fin(r.value.dur) && c.walk == Finished(r.value.path)
  {
    if acc.None? then None
    else if Greater(c.peak, Fin(acc.value.dur)) then
      match c.walk
      case Diverges => None
      case Finished(p) => Some(Best(p, c.peak.n))
    else acc
  }

  /** The loop of lines 64-71 over the first `i` candidates, from an empty path and 0. */
  function Scan(cs: seq<Candidate>, i: nat): Option<Best>
    requires i <= |cs|
  {
    if i == 0 then Some(Best([], 0)) else Step(Scan(cs, i - 1), cs[i - 1])
  }

  /** Line 74: the `nome` of each node of the path, in order; the first node without one
      raises `KeyError`. */
  function NamesOf(g: Graph, path: seq<Node>): (r: Result<seq<string>, Node>)
    ensures r.Ok? <==> forall n :: n in path ==> n in g.names
    ensures r.Ok? ==> |r.value| == |path| && forall i :: 0 <= i < |path| ==> r.value[i] == g.names[path[i]]
    ensures r.Err? ==> exists i :: (0 <= i < |path| && path[i] == r.error && r.error !in g.names
      && forall j :: 0 <= j < i ==> path[j] in g.names)
  {
    if path == [] then Ok([])
    else if path[0] !in g.names then Err(path[0])
    else
      match NamesOf(g, path[1..])
      case Err(n) =>
        assert forall j :: 1 <= j < |path| ==> path[j] == path[1..][j - 1];
        Err(n)
      case Ok(rest) => Ok([g.names[path[0]]] + rest)
  }

  /** What `calcular_caminho_critico` does on graph `g`. */
  ghost function CriticalPathOf(g: Graph): (r: Outcome)
    requires Valid(g)
    ensures r.NoStartNode? <==> forall n :: n in g.nodes ==> !InDegreeZero(g, n)
    ensures r.Critical? ==> r.duration >= 1
  {
    var ss := StartNodes(g);
    if ss == [] then NoStartNode
    else
      assert ss[0] in ss;
      var cs := Candidates(g, ss);
      ScanNonnegative(cs);
      match Scan(cs, |ss|)
      case None => Hangs
      case Some(b) => Report(g, b)
  }

  /** The kept distance never drops below its initial 0. */
  lemma ScanNonnegative(cs: seq<Candidate>)
    ensures Scan(cs, |cs|).Some? ==> Scan(cs, |cs|).value.dur >= 0
  {
    if Scan(cs, |cs|).Some? {
      ScanChoice(cs, |cs|);
    }
  }

  /** Lines 74-76: the names along the kept path and its duration, one more than its distance. */
  function Report(g: Graph, b: Best): (r: Outcome)
    ensures r.Critical? || r.MissingName?
    ensures r.Critical? <==> forall n :: n in b.path ==> n in g.names
    ensures r.Critical? ==> (r.duration == b.dur + 1 && |r.names| == |b.path|
      && forall i :: 0 <= i < |b.path| ==> r.names[i] == g.names[b.path[i]])
    ensures r.MissingName? ==> r.node in b.path && r.node !in g.names
  {
    match NamesOf(g, b.path)
    case Err(n) => MissingName(n)
    case Ok(names) => Critical(names, b.dur + 1)
  }

  /** `calcular_caminho_critico` (lines 52-76). */
  method ComputeCriticalPath(g: Graph) returns (r: Outcome)
    requires Valid(g)
    ensures r == CriticalPathOf(g)
  {
    var inicio := StartNodes(g);
    if inicio == [] {
      return NoStartNode;
    }
    var best := ScanStarts(g, inicio);
    if best.None? {
      return Hangs;
    }
    return Report(g, best.value);
  }

  /** The loop of lines 64-71 over the starts `inicio`. */
  method ScanStarts(g: Graph, inicio: seq<Node>) returns (r: Option<Best>)
    requires Valid(g) && forall s :: s in inicio ==> s in g.nodes
    ensures r == Scan(Candidates(g, inicio), |inicio|)
  {
    ghost var cs := Candidates(g, inicio);
    var caminho: seq<Node> := [];
    var duracao := 0;
    for i := 0 to |inicio|
      invariant Scan(cs, i) == Some(Best(caminho, duracao))
    {
      var next := TryStart(g, inicio[i], Best(caminho, duracao));
      if next.None? {
        r := None;
        ScanStaysNone(cs, i + 1);
        return;
      }
      caminho, duracao := next.value.path, next.value.dur;
    }
    return Some(Best(caminho, duracao));
  }

  /** The body of the loop of lines 64-71 for start `s`, with the best path so far in `acc`;
      `None` where the reconstruction would run forever. */
  method TryStart(g: Graph, s: Node, acc: Best) returns (r: Option<Best>)
    requires Valid(g) && s in g.nodes
    ensures r == Step(Some(acc), CandidateOf(g, Run(g, s)))
  {
    var dist, pred, _ := BellmanFord(g, s);
    RunPredClosed(g, s);
    var fim := g.nodes[ArgMax(g.nodes, dist)];
    if !Greater(dist[fim], Fin(acc.dur)) {
      return Some(acc);
    }
    var w := ReconstructPath(pred, fim);
    if w.Diverges? {
      return None;
    }
    return Some(Best(w.path, dist[fim].n));
  }

  /** The predecessor dictionary names only keys. */
  lemma RunPredClosed(g: Graph, s: Node)
    requires Valid(g) && s in g.nodes
    ensures PredClosed(Run(g, s).pred)
  {
    RunInvariant(g, s);
    var L := Run(g, s);
    forall n | n in L.pred && L.pred[n].Some? ensures L.pred[n].value in L.pred {
      assert PredLink(g, L, L.pred[n].value, n);
    }
  }

  /** Once a reconstruction has run forever, the whole loop does. */
  lemma {:induction false} ScanStaysNone(cs: seq<Candidate>, i: nat)
    requires i <= |cs| && Scan(cs, i) == None
    ensures Scan(cs, |cs|) == None
    decreases |cs| - i
  {
    if i < |cs| {
      ScanStaysNone(cs, i + 1);
    }
  }

  /** Candidate `cs[j]` is where the kept path `b` comes from: its distance is the kept one,
      every earlier candidate's falls strictly short of it, and its path is `b.path`. */
  ghost predicate PeakAt(cs: seq<Candidate>, j: nat, b: Best)
    requires j < |cs|
  {
    && cs[j].peak == Fin(b.dur) && cs[j].walk == Finished(b.path)
    && forall k :: 0 <= k < j ==> Greater(Fin(b.dur), cs[k].peak)
  }

  /** Lines 60-71: the kept distance is at least every candidate's; it stays 0 with an empty
      path when none is positive, and otherwise it comes from the FIRST candidate with the
      largest distance, since a later one only wins by strictly beating it. */
  lemma {:induction false} ScanChoice(cs: seq<Candidate>, i: nat)
    requires i <= |cs| && Scan(cs, i).Some?
    ensures Scan(cs, i).value.dur >= 0
    ensures forall k :: 0 <= k < i ==> AtMost(cs[k].peak, Fin(Scan(cs, i).value.dur))
    ensures Scan(cs, i).value.dur == 0 ==> Scan(cs, i).value.path == []
    ensures Scan(cs, i).value.dur > 0 ==> exists j :: 0 <= j < i && PeakAt(cs, j, Scan(cs, i).value)
  {
    if i > 0 {
      var prev := Scan(cs, i - 1);
      assert prev.Some?;
      ScanChoice(cs, i - 1);
      var b := Scan(cs, i).value;
      if Greater(cs[i - 1].peak, Fin(prev.value.dur)) {
        forall k | 0 <= k < i - 1 ensures Greater(Fin(b.dur), cs[k].peak) {
          AtMostTrans(cs[k].peak, Fin(prev.value.dur), Fin(b.dur));
        }
        assert PeakAt(cs, i - 1, b);
      } else if b.dur > 0 {
        var j :| 0 <= j < i - 1 && PeakAt(cs, j, b);
        assert PeakAt(cs, j, b);
      }
    }
  }

  /** With no edges every start's end node is at distance 0 at most, so the loop keeps the
      empty path and 0 and the driver returns the empty path with duration 1. */
  lemma NoEdgesResult(g: Graph)
    requires Valid(g) && |g.nodes| >= 1 && forall u, v :: !HasEdge(g, u, v)
    ensures CriticalPathOf(g) == Critical([], 1)
  {
    var ss := StartNodes(g);
    NoEdgesStart(g);
    var cs := Candidates(g, ss);
    forall k | 0 <= k < |cs| ensures AtMost(cs[k].peak, Fin(0)) {
      NoEdgesPeak(g, ss[k]);
    }
    NoEdgesScan(cs, |cs|);
    assert Report(g, Best([], 0)) == Critical([], 1);
  }

  /** Without edges every node is a start. */
  lemma NoEdgesStart(g: Graph)
    requires Valid(g) && |g.nodes| >= 1 && forall u, v :: !HasEdge(g, u, v)
    ensures StartNodes(g) != []
  {
    forall u | u in g.succ ensures g.nodes[0] !in g.succ[u] {
      assert !HasEdge(g, u, g.nodes[0]);
    }
    assert g.nodes[0] in StartNodes(g);
  }

  lemma {:induction false} NoEdgesScan(cs: seq<Candidate>, i: nat)
    requires i <= |cs| && forall k :: 0 <= k < |cs| ==> AtMost(cs[k].peak, Fin(0))
    ensures Scan(cs, i) == Some(Best([], 0))
  {
    if i > 0 {
      NoEdgesScan(cs, i - 1);
    }
  }

  lemma NoEdgesPeak(g: Graph, s: Node)
    requires Valid(g) && s in g.nodes && forall u, v :: !HasEdge(g, u, v)
    ensures AtMost(CandidateOf(g, Run(g, s)).peak, Fin(0))
  {
    RunInvariant(g, s);
    var L := Run(g, s);
    var fim := EndOf(g, L);
    if L.dist[fim].Fin? {
      NoEdgesWalk(g, s, fim, L.dist[fim].n);
    }
  }

  /** Without edges the only walks are empty. */
  lemma NoEdgesWalk(g: Graph, s: Node, v: Node, d: nat)
    requires ReachableIn(g, s, v, d) && forall u, w :: !HasEdge(g, u, w)
    ensures d == 0
  {
  }

  /** On an acyclic graph, a reconstruction from any node after a relaxation finishes. */
  lemma RunTrace(g: Graph, rank: map<Node, nat>, s: Node, v: Node)
    requires Valid(g) && TopoRank(g, rank) && s in g.nodes && v in g.nodes
    ensures TraceOf(Run(g, s).pred, v).Finished?
    ensures IsTrace(Run(g, s).pred, v, TraceOf(Run(g, s).pred, v).path)
  {
    var L := Run(g, s);
    RunInvariant(g, s);
    RunPredClosed(g, s);
    forall n | n in L.pred && L.pred[n].Some? ensures HasEdge(g, L.pred[n].value, n) {
      assert PredLink(g, L, L.pred[n].value, n);
    }
    var p := TraceExists(g, rank, L.pred, v);
    TraceOfTrace(L.pred, v, p);
  }

  /** Every recorded predecessor is exactly one closer to the start. */
  ghost predicate Tight(L: Labels) {
    forall n :: n in L.pred && L.pred[n].Some? ==>
      n in L.dist && L.pred[n].value in L.dist && L.dist[n] == Plus1(L.dist[L.pred[n].value])
  }

  /** Along a chain of tight links the distance drops by one per entry. */
  lemma {:induction false} ChainDist(L: Labels, v: Node, p: seq<Node>, k: nat)
    requires Tight(L) && Chain(L.pred, v, p) && k < |p| && v in L.dist && L.dist[v].Fin?
    ensures p[k] in L.dist && L.dist[p[k]] == Fin(L.dist[v].n - (|p| - 1 - k))
    decreases |p| - k
  {
    if k < |p| - 1 {
      ChainDist(L, v, p, k + 1);
      assert L.pred[p[k + 1]] == Some(p[k]);
    }
  }

  /** On an acyclic graph whose codes are all truthy, the path traced back from a node at
      distance `n` starts at the start node and has `n + 1` entries. */
  lemma TraceFromStart(g: Graph, rank: map<Node, nat>, s: Node, v: Node, p: seq<Node>)
    requires Valid(g) && TopoRank(g, rank) && s in g.nodes && v in g.nodes && "" !in g.nodes
    requires Run(g, s).dist[v].Fin? && IsTrace(Run(g, s).pred, v, p)
    ensures |p| == Run(g, s).dist[v].n + 1 && p[0] == s
  {
    var L := Run(g, s);
    RunInvariant(g, s);
    forall n | n in L.pred && L.pred[n].Some?
      ensures n in L.dist && L.pred[n].value in L.dist && L.dist[n] == Plus1(L.dist[L.pred[n].value])
    {
      RunPredTight(g, rank, s, n);
    }
    ChainDist(L, v, p, 0);
    if L.pred[p[0]].Some? {
      RunPredTight(g, rank, s, p[0]);
    }
  }

  /** The path kept from start `s` on an acyclic graph whose codes are all truthy: it starts
      at `s`, follows edges, repeats no node and has one entry more than its distance. */
  lemma KeptPath(g: Graph, rank: map<Node, nat>, s: Node, b: Best)
    requires Valid(g) && TopoRank(g, rank) && s in g.nodes && "" !in g.nodes
    requires CandidateOf(g, Run(g, s)) == Candidate(Fin(b.dur), Finished(b.path))
    ensures |b.path| == b.dur + 1 && b.path[0] == s
    ensures EdgePath(g, b.path) && Distinct(b.path)
  {
    var L := Run(g, s);
    var fim := EndOf(g, L);
    RunTrace(g, rank, s, fim);
    TraceFromStart(g, rank, s, fim, b.path);
    RunInvariant(g, s);
    forall n | n in L.pred && L.pred[n].Some? ensures HasEdge(g, L.pred[n].value, n) {
      assert PredLink(g, L, L.pred[n].value, n);
    }
    TraceFollowsEdges(g, L.pred, fim, b.path);
    forall i, j | 0 <= i < j < |b.path| ensures b.path[i] != b.path[j] {
      TraceDistinct(L.pred, fim, b.path, i, j);
    }
  }

  /** The candidate the kept path comes from is that start's relaxation and reconstruction. */
  lemma PeakCandidate(g: Graph, ss: seq<Node>, j: nat, b: Best)
    requires Valid(g) && (forall s :: s in ss ==> s in g.nodes) && j < |ss|
    requires PeakAt(Candidates(g, ss), j, b)
    ensures CandidateOf(g, Run(g, ss[j])) == Candidate(Fin(b.dur), Finished(b.path))
  {
    var c := Candidates(g, ss)[j];
    assert c == CandidateOf(g, Run(g, ss[j]));
    assert c.peak == Fin(b.dur) && c.walk == Finished(b.path);
  }

  /** A kept path of positive distance from start `s` is a walk of that many edges from `s`,
      and it contains an edge. */
  lemma KeptWalk(g: Graph, rank: map<Node, nat>, s: Node, b: Best)
    requires Valid(g) && TopoRank(g, rank) && s in g.nodes && "" !in g.nodes && InDegreeZero(g, s)
    requires CandidateOf(g, Run(g, s)) == Candidate(Fin(b.dur), Finished(b.path)) && b.dur > 0
    ensures |b.path| == b.dur + 1 && InDegreeZero(g, b.path[0]) && EdgePath(g, b.path) && Distinct(b.path)
    ensures ReachableIn(g, b.path[0], b.path[|b.path| - 1], b.dur)
    ensures HasEdge(g, b.path[0], b.path[1])
  {
    KeptPath(g, rank, s, b);
    EdgePathReaches(g, b.path);
  }

  /** A walk from a start is no longer than that start's peak (acyclic graph). */
  lemma PeakCoversWalk(g: Graph, rank: map<Node, nat>, s: Node, y: Node, e: nat)
    requires Valid(g) && TopoRank(g, rank) && s in g.nodes && ReachableIn(g, s, y, e)
    ensures AtMost(Fin(e), CandidateOf(g, Run(g, s)).peak)
  {
    RunCoversWalk(g, rank, s, y, e);
    var L := Run(g, s);
    AtMostTrans(Fin(e), L.dist[y], L.dist[EndOf(g, L)]);
  }

  /** Every walk of the graph is at most as long as `dur` when every start's peak is: the walk
      extends one from a start (acyclic graph). */
  lemma WalkBounded(g: Graph, rank: map<Node, nat>, dur: int, x: Node, y: Node, d: nat)
    requires Valid(g) && TopoRank(g, rank) && x in g.nodes && ReachableIn(g, x, y, d)
    requires forall s :: s in StartNodes(g) ==> AtMost(CandidateOf(g, Run(g, s)).peak, Fin(dur))
    ensures d <= dur
  {
    var s0, e := WalkFromStart(g, rank, x, y, d);
    PeakCoversWalk(g, rank, s0, y, e);
    AtMostTrans(Fin(e), CandidateOf(g, Run(g, s0)).peak, Fin(dur));
  }

  /** A walk extends to one at least as long from a start (acyclic graph). */
  lemma WalkFromStart(g: Graph, rank: map<Node, nat>, x: Node, y: Node, d: nat) returns (s0: Node, e: nat)
    requires Valid(g) && TopoRank(g, rank) && x in g.nodes && ReachableIn(g, x, y, d)
    ensures s0 in g.nodes && InDegreeZero(g, s0) && ReachableIn(g, s0, y, e) && d <= e
  {
    var d0;
    s0, d0 := ReachedFromSource(g, rank, x);
    ReachConcat(g, s0, x, y, d0, d);
    e := d0 + d;
  }

  /** Candidates that all finish keep the loop from running forever. */
  lemma {:induction false} ScanFinishes(cs: seq<Candidate>, i: nat)
    requires i <= |cs| && forall k :: 0 <= k < |cs| ==> cs[k].walk.Finished?
    ensures Scan(cs, i).Some?
  {
    if i > 0 {
      ScanFinishes(cs, i - 1);
    }
  }

  /** What the kept path `b` promises on an acyclic graph: its distance bounds every walk
      and is the length of the path, which starts at a start node, follows edges (a walk of
      `b.dur` edges) and repeats no node; the path is empty exactly when the graph has no edge. */
  ghost predicate Longest(g: Graph, b: Best) {
    && (forall x, y, d: nat :: x in g.nodes && ReachableIn(g, x, y, d) ==> d <= b.dur)
    && (b.path == [] <==> b.dur == 0)
    && (b.path == [] <==> forall u, v :: !HasEdge(g, u, v))
    && (b.path != [] ==>
          && |b.path| == b.dur + 1 && InDegreeZero(g, b.path[0]) && EdgePath(g, b.path) && Distinct(b.path)
          && ReachableIn(g, b.path[0], b.path[|b.path| - 1], b.dur))
  }

  /** On a nonempty acyclic graph the loop ends with some kept path. */
  lemma DagScan(g: Graph, rank: map<Node, nat>) returns (b: Best)
    requires Valid(g) && TopoRank(g, rank) && |g.nodes| >= 1
    ensures StartNodes(g) != [] && Scan(Candidates(g, StartNodes(g)), |StartNodes(g)|) == Some(b)
  {
    var ss := StartNodes(g);
    var s0, d0 := ReachedFromSource(g, rank, g.nodes[0]);
    assert s0 in ss;
    var cs := Candidates(g, ss);
    forall k | 0 <= k < |cs| ensures cs[k].walk.Finished? {
      RunTrace(g, rank, ss[k], EndOf(g, Run(g, ss[k])));
    }
    ScanFinishes(cs, |cs|);
    b := Scan(cs, |cs|).value;
  }

  /** The kept path is a longest path of an acyclic graph whose codes are all truthy. */
  lemma DagLongest(g: Graph, rank: map<Node, nat>, b: Best)
    requires Valid(g) && TopoRank(g, rank) && "" !in g.nodes
    requires Scan(Candidates(g, StartNodes(g)), |StartNodes(g)|) == Some(b)
    ensures Longest(g, b)
  {
    var ss := StartNodes(g);
    var cs := Candidates(g, ss);
    ScanChoice(cs, |cs|);
    forall s | s in ss ensures AtMost(CandidateOf(g, Run(g, s)).peak, Fin(b.dur)) {
      var k :| 0 <= k < |ss| && ss[k] == s;
      assert cs[k] == CandidateOf(g, Run(g, s));
    }
    forall x, y, d: nat | x in g.nodes && ReachableIn(g, x, y, d) ensures d <= b.dur {
      WalkBounded(g, rank, b.dur, x, y, d);
    }
    if b.dur > 0 {
      var j :| 0 <= j < |cs| && PeakAt(cs, j, b);
      PeakCandidate(g, ss, j, b);
      assert ss[j] in ss;
      KeptWalk(g, rank, ss[j], b);
    } else {
      forall u, v | HasEdge(g, u, v) ensures false {
        assert ReachableIn(g, u, v, 1) by {
          assert ReachableIn(g, u, u, 0);
        }
      }
    }
  }

  /** On a nonempty acyclic graph whose codes are all truthy the driver returns (or fails only
      on a missing name): the path it keeps is a longest path of the graph, and with at least
      one edge the result lists one name per entry and the duration counts the entries. */
  lemma DagCriticalPath(g: Graph, rank: map<Node, nat>) returns (b: Best)
    requires Valid(g) && TopoRank(g, rank) && |g.nodes| >= 1 && "" !in g.nodes
    ensures Longest(g, b) && CriticalPathOf(g) == Report(g, b)
    ensures CriticalPathOf(g).Critical? || CriticalPathOf(g).MissingName?
    ensures CriticalPathOf(g).Critical? && b.path != [] ==>
      |CriticalPathOf(g).names| == CriticalPathOf(g).duration
  {
    b := DagScan(g, rank);
    DagLongest(g, rank, b);
  }
}
