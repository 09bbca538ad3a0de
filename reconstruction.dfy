/**
 * Walking the predecessor links back from an end node (`reconstruir_caminho`). The loop runs
 * while the current code is truthy: Python stops on `None` and also on the empty code, which a
 * dependency field ending in ';' puts into the graph. On a cyclic chain of links the Python
 * loop never ends; the model reports that outcome as `Diverges` instead of looping.
 */
module Reconstruction {
  import opened Wrappers
  import opened DiGraph

  /** `while nodo_fim:` — `None` and the empty string are false. */
  predicate Truthy(o: Option<Node>) {
    o.Some? && o.value != ""
  }

  /** Every predecessor named is itself a key, as in the dictionary `bellman_ford` returns. */
  ghost predicate PredClosed(pred: map<Node, Option<Node>>) {
    forall n :: n in pred && pred[n].Some? ==> pred[n].value in pred
  }

  /** `p` ends at `end`, and each entry after the first is preceded by its recorded
      predecessor; every entry is a truthy key. */
  ghost predicate Chain(pred: map<Node, Option<Node>>, end: Node, p: seq<Node>) {
    && |p| >= 1 && p[|p| - 1] == end
    && (forall k :: 0 <= k < |p| ==> p[k] in pred && p[k] != "")
    && (forall k :: 1 <= k < |p| ==> pred[p[k]] == Some(p[k - 1]))
  }

  /** `p` is what the loop builds when it stops: the whole chain back from `end` to the first
      entry whose predecessor is falsy; nothing at all when `end` itself is falsy. */
  ghost predicate IsTrace(pred: map<Node, Option<Node>>, end: Node, p: seq<Node>) {
    if end == "" then p == []
    else Chain(pred, end, p) && !Truthy(pred[p[0]])
  }

  /** The two outcomes of the loop: it stops with a path, or it runs forever. */
  datatype Walk = Finished(path: seq<Node>) | Diverges

  /** The outcome of the loop from `end`, defined by the trace: there is at most one. */
  ghost function TraceOf(pred: map<Node, Option<Node>>, end: Node): (r: Walk)
    ensures r.Finished? ==> IsTrace(pred, end, r.path)
    ensures r.Diverges? ==> forall p :: !IsTrace(pred, end, p)
  {
    if exists p :: IsTrace(pred, end, p) then
      var p :| IsTrace(pred, end, p); Finished(p)
    else Diverges
  }

  /** `reconstruir_caminho` (lines 44-49). Finishes with the trace when there is one; returns
      `Diverges` exactly when the links from `end` run into a cycle, where Python loops forever. */
  method ReconstructPath(pred: map<Node, Option<Node>>, end: Node) returns (r: Walk)
    requires PredClosed(pred) && (end == "" || end in pred)
    ensures r.Finished? ==> IsTrace(pred, end, r.path) && Distinct(r.path)
    ensures r.Diverges? ==> forall p :: !IsTrace(pred, end, p)
    ensures r == TraceOf(pred, end)
  {
    var path: seq<Node> := [];
    var cur: Option<Node> := Some(end);
    while Truthy(cur)
      invariant cur.Some? ==> cur.value == "" || cur.value in pred
      invariant path == [] ==> cur == Some(end)
      invariant path != [] ==> Chain(pred, end, path) && cur == pred[path[0]]
      invariant Distinct(path)
      invariant forall x :: x in path ==> x in pred
      decreases pred.Keys - set x | x in path
    {
      var n := cur.value;
      if n in path {
        CycleClosed(pred, end, path);
        return Diverges;
      }
      ConsChain(pred, end, path, n);
      assert (set x | x in [n] + path) == (set x | x in path) + {n};
      path := [n] + path;
      cur := pred[n];
    }
    TraceOfTrace(pred, end, path);
    return Finished(path);
  }

  /** The trace, once found, is what `TraceOf` names. */
  lemma TraceOfTrace(pred: map<Node, Option<Node>>, end: Node, p: seq<Node>)
    requires IsTrace(pred, end, p)
    ensures TraceOf(pred, end) == Finished(p)
  {
    var q :| IsTrace(pred, end, q) && TraceOf(pred, end) == Finished(q);
    TraceUnique(pred, end, p, q);
  }

  /** Prepending the current predecessor extends the chain. */
  lemma ConsChain(pred: map<Node, Option<Node>>, end: Node, path: seq<Node>, n: Node)
    requires n in pred && n != "" && n !in path && Distinct(path)
    requires path == [] ==> n == end
    requires path != [] ==> Chain(pred, end, path) && pred[path[0]] == Some(n)
    ensures Chain(pred, end, [n] + path) && Distinct([n] + path)
  {
    var q := [n] + path;
    forall k | 1 <= k < |q| ensures pred[q[k]] == Some(q[k - 1]) {
      assert q[k] == path[k - 1];
      if k > 1 {
        assert q[k - 1] == path[k - 2];
      }
    }
  }

  /** When the current predecessor is already on the path, the path's nodes form a set the
      links never leave, so no trace exists. */
  lemma CycleClosed(pred: map<Node, Option<Node>>, end: Node, path: seq<Node>)
    requires path != [] && Chain(pred, end, path) && Truthy(pred[path[0]]) && pred[path[0]].value in path
    ensures forall p :: !IsTrace(pred, end, p)
  {
    var S := set x | x in path;
    forall x | x in S ensures x in pred && x != "" && Truthy(pred[x]) && pred[x].value in S {
      var k :| 0 <= k < |path| && path[k] == x;
      if k > 0 {
        assert pred[path[k]] == Some(path[k - 1]);
      }
    }
    assert end in S by {
      assert path[|path| - 1] == end;
    }
    ClosedNoTrace(pred, end, S);
  }

  /** A set of truthy keys that contains `end` and whose links stay inside it admits no trace
      from `end`: the links never reach a falsy predecessor. */
  lemma ClosedNoTrace(pred: map<Node, Option<Node>>, end: Node, S: set<Node>)
    requires end in S
    requires forall x :: x in S ==> x in pred && x != "" && Truthy(pred[x]) && pred[x].value in S
    ensures forall p :: !IsTrace(pred, end, p)
  {
    forall p | IsTrace(pred, end, p) ensures false {
      TraceStaysIn(pred, end, S, p, 0);
    }
  }

  lemma {:induction false} TraceStaysIn(pred: map<Node, Option<Node>>, end: Node, S: set<Node>, p: seq<Node>, k: nat)
    requires end in S && end != ""
    requires forall x :: x in S ==> x in pred && Truthy(pred[x]) && pred[x].value in S
    requires Chain(pred, end, p) && k < |p|
    ensures p[k] in S
    decreases |p| - k
  {
    if k < |p| - 1 {
      TraceStaysIn(pred, end, S, p, k + 1);
      assert pred[p[k + 1]] == Some(p[k]);
    }
  }

  /** A trace repeats no node: a repeat would make the links from the first entry continue. */
  lemma {:induction false} TraceDistinct(pred: map<Node, Option<Node>>, end: Node, p: seq<Node>, i: nat, j: nat)
    requires IsTrace(pred, end, p) && i < j < |p|
    ensures p[i] != p[j]
    decreases i
  {
    assert pred[p[j]] == Some(p[j - 1]);
    if i > 0 {
      TraceDistinct(pred, end, p, i - 1, j - 1);
      assert pred[p[i]] == Some(p[i - 1]);
    }
  }

  /** There is at most one trace: the links determine it entry by entry from the end. */
  lemma TraceUnique(pred: map<Node, Option<Node>>, end: Node, p: seq<Node>, q: seq<Node>)
    requires IsTrace(pred, end, p) && IsTrace(pred, end, q)
    ensures p == q
  {
    if end != "" {
      if |p| < |q| {
        TraceShorter(pred, end, p, q);
      } else if |q| < |p| {
        TraceShorter(pred, end, q, p);
      } else {
        forall i | 0 <= i < |p| ensures p[i] == q[i] {
          TraceAgree(pred, end, p, q, i);
        }
      }
    }
  }

  /** No trace is strictly shorter than another. */
  lemma TraceShorter(pred: map<Node, Option<Node>>, end: Node, p: seq<Node>, q: seq<Node>)
    requires end != "" && IsTrace(pred, end, p) && IsTrace(pred, end, q)
    ensures |q| <= |p|
  {
    if |p| < |q| {
      ChainContinues(pred, end, p, q);
    }
  }

  /** Where a longer chain exists, the first entry of a shorter one still has a truthy
      predecessor. */
  lemma ChainContinues(pred: map<Node, Option<Node>>, end: Node, p: seq<Node>, q: seq<Node>)
    requires end != "" && Chain(pred, end, p) && Chain(pred, end, q) && |p| < |q|
    ensures Truthy(pred[p[0]])
  {
    TraceAgree(pred, end, p, q, 0);
    var d := |q| - |p|;
    assert pred[q[d]] == Some(q[d - 1]);
  }

  /** Two traces agree entry by entry counted from the end. */
  lemma {:induction false} TraceAgree(pred: map<Node, Option<Node>>, end: Node, p: seq<Node>, q: seq<Node>, i: nat)
    requires end != "" && Chain(pred, end, p) && Chain(pred, end, q) && |p| <= |q| && i < |p|
    ensures p[i] == q[i + |q| - |p|]
    decreases |p| - i
  {
    if i < |p| - 1 {
      TraceAgree(pred, end, p, q, i + 1);
      var j := i + 1 + |q| - |p|;
      assert pred[p[i + 1]] == Some(p[i]) && pred[q[j]] == Some(q[j - 1]);
    }
  }

  /** Links that follow graph edges make a trace an edge path. */
  lemma TraceFollowsEdges(g: Graph, pred: map<Node, Option<Node>>, end: Node, p: seq<Node>)
    requires forall n :: n in pred && pred[n].Some? ==> HasEdge(g, pred[n].value, n)
    requires IsTrace(pred, end, p)
    ensures EdgePath(g, p)
  {
    forall i | 0 <= i < |p| - 1 ensures HasEdge(g, p[i], p[i + 1]) {
      assert pred[p[i + 1]] == Some(p[i]);
    }
  }

  /** When every link follows an edge of an acyclic graph, a trace exists: the topological
      number drops along each link, so the links reach a falsy predecessor. */
  lemma {:induction false} TraceExists(g: Graph, rank: map<Node, nat>, pred: map<Node, Option<Node>>, end: Node)
    returns (p: seq<Node>)
    requires TopoRank(g, rank) && PredClosed(pred) && end in pred && end in rank
    requires forall n :: n in pred && pred[n].Some? ==> HasEdge(g, pred[n].value, n)
    ensures IsTrace(pred, end, p)
    decreases rank[end]
  {
    if end == "" {
      p := [];
    } else if !Truthy(pred[end]) {
      p := [end];
    } else {
      var u := pred[end].value;
      assert HasEdge(g, u, end);
      var q := TraceExists(g, rank, pred, u);
      p := q + [end];
      forall k | 1 <= k < |p| ensures pred[p[k]] == Some(p[k - 1]) {
        if k < |q| {
          assert p[k] == q[k] && p[k - 1] == q[k - 1];
        }
      }
    }
  }
}
