/**
 * Building the dependency graph from task records (`construir_grafo`). Reading the CSV file is
 * not modelled: the builder receives the rows already parsed, each with its three fields.
 */
module GraphBuilder {
  import opened Wrappers
  import opened DiGraph

  /** One CSV row: `Nome`, `Código` and the raw `Dependências` field. */
  datatype Record = Record(nome: string, codigo: Node, dependencias: string)

  /** Python's `s.split(';')`: the pieces between separators, empty pieces included. */
  function Split(s: string): (parts: seq<string>)
    ensures |parts| >= 1
    ensures forall i :: 0 <= i < |parts| ==> ';' !in parts[i]
  {
    if s == [] then [""]
    else
      var rest := Split(s[1..]);
      if s[0] == ';' then [""] + rest
      else [[s[0]] + rest[0]] + rest[1..]
  }

  /** `';'.join(parts)`, the inverse of `Split`. */
  function Join(parts: seq<string>): string
    requires |parts| >= 1
  {
    if |parts| == 1 then parts[0] else parts[0] + ";" + Join(parts[1..])
  }

  lemma {:induction false} JoinSplit(s: string)
    ensures Join(Split(s)) == s
  {
    if s != [] {
      JoinSplit(s[1..]);
      var rest := Split(s[1..]);
      if s[0] != ';' && |rest| > 1 {
        assert ([[s[0]] + rest[0]] + rest[1..])[1..] == rest[1..];
      }
    }
  }

  /** Splitting a piece free of separators that is followed by one. */
  lemma {:induction false} SplitPiece(a: string, b: string)
    requires ';' !in a
    ensures Split(a + ";" + b) == [a] + Split(b)
    ensures Split(a) == [a]
  {
    if a != [] {
      SplitPiece(a[1..], b);
      assert (a + ";" + b)[1..] == a[1..] + ";" + b;
      assert [a[0]] + a[1..] == a;
    } else {
      assert a + ";" + b == [';'] + b;
    }
  }

  lemma {:induction false} SplitJoin(parts: seq<string>)
    requires |parts| >= 1
    requires forall i :: 0 <= i < |parts| ==> ';' !in parts[i]
    ensures Split(Join(parts)) == parts
  {
    if |parts| == 1 {
      SplitPiece(parts[0], "");
    } else {
      SplitJoin(parts[1..]);
      SplitPiece(parts[0], Join(parts[1..]));
      assert [parts[0]] + parts[1..] == parts;
    }
  }

  /** Line 16: an empty field gives no dependency, any other is split at every ';'. */
  function Dependencies(field: string): (deps: seq<Node>)
    ensures field == "" ==> deps == []
    ensures field != "" ==> |deps| >= 1 && Join(deps) == field
    ensures forall i :: 0 <= i < |deps| ==> ';' !in deps[i]
  {
    JoinSplit(field);
    if field != "" then Split(field) else []
  }

  /** The edges `dep -> v` for the first `j` dependencies, in order (the inner loop, lines
      21-22). */
  function AddDependencies(g: Graph, deps: seq<Node>, j: nat, v: Node): (r: Graph)
    requires Valid(g) && v in g.nodes && j <= |deps|
    ensures Valid(r) && r.names == g.names
    ensures forall n :: n in r.nodes <==> n in g.nodes || n in deps[..j]
    ensures forall x, y :: HasEdge(r, x, y) <==> HasEdge(g, x, y) || (y == v && x in deps[..j])
    ensures NoRepeats(g) ==> NoRepeats(r)
  {
    if j == 0 then g
    else
      assert forall x :: x in deps[..j] <==> x in deps[..j - 1] || x == deps[j - 1];
      var h := AddDependencies(g, deps, j - 1, v);
      AddEdgeNoRepeats(h, deps[j - 1], v);
      AddEdge(h, deps[j - 1], v)
  }

  /** One row: `add_node(codigo, nome=...)`, then its dependency edges. */
  function AddRecord(g: Graph, row: Record): (r: Graph)
    requires Valid(g)
    ensures Valid(r)
    ensures forall n :: n in r.nodes <==>
      n in g.nodes || n == row.codigo || n in Dependencies(row.dependencias)
    ensures r.names == g.names[row.codigo := row.nome]
    ensures forall x, y :: HasEdge(r, x, y) <==>
      HasEdge(g, x, y) || (y == row.codigo && x in Dependencies(row.dependencias))
  {
    var deps := Dependencies(row.dependencias);
    TakeAll(deps);
    AddDependencies(AddNamedNode(g, row.codigo, row.nome), deps, |deps|, row.codigo)
  }

  /** The dependencies are appended to the nodes in the order listed, each at its first
      mention. */
  lemma {:induction false} AddDependenciesOrder(g: Graph, deps: seq<Node>, j: nat, v: Node)
    requires Valid(g) && v in g.nodes && j <= |deps|
    ensures AddDependencies(g, deps, j, v).nodes == Appended(g.nodes, deps[..j])
  {
    if j > 0 {
      PrefixStep(deps, j);
      AddDependenciesOrder(g, deps, j - 1, v);
      AddDependencyOrder(g, deps, j, v);
    }
  }

  /** The `j`-th dependency is appended unless it is already a node; `v` already is one. */
  lemma AddDependencyOrder(g: Graph, deps: seq<Node>, j: nat, v: Node)
    requires Valid(g) && v in g.nodes && 1 <= j <= |deps|
    ensures AddDependencies(g, deps, j, v).nodes == AppendNew(AddDependencies(g, deps, j - 1, v).nodes, deps[j - 1])
  {
    var h := AddDependencies(g, deps, j - 1, v);
    assert v in AppendNew(h.nodes, deps[j - 1]);
  }

  lemma PrefixStep<T>(s: seq<T>, j: nat)
    requires 1 <= j <= |s|
    ensures s[..j][..j - 1] == s[..j - 1] && s[..j][j - 1] == s[j - 1]
  {
  }

  /** One row appends its code, then its dependencies in the order listed, each at its first
      mention; the old nodes keep their places in front. */
  lemma AddRecordOrder(g: Graph, row: Record)
    requires Valid(g)
    ensures AddRecord(g, row).nodes == Appended(g.nodes, [row.codigo] + Dependencies(row.dependencias))
  {
    var deps := Dependencies(row.dependencias);
    var n := AddNamedNode(g, row.codigo, row.nome);
    AddDependenciesOrder(n, deps, |deps|, row.codigo);
    TakeAll(deps);
    AppendedOne(g.nodes, row.codigo);
    AppendedConcat(g.nodes, [row.codigo], deps);
  }

  lemma AppendedOne(ns: seq<Node>, x: Node)
    ensures Appended(ns, [x]) == AppendNew(ns, x)
  {
    assert [x][..0] == [];
  }

  /** The graph after the rows of `rows`, in order. */
  function BuildFrom(rows: seq<Record>): (g: Graph)
    ensures Valid(g)
  {
    if rows == [] then Empty
    else AddRecord(BuildFrom(rows[..|rows| - 1]), rows[|rows| - 1])
  }

  /** However often a code or a dependency repeats, the graph holds each node once and each
      edge once. */
  lemma {:induction false} BuildNoRepeats(rows: seq<Record>)
    ensures NoRepeats(BuildFrom(rows))
  {
    if rows != [] {
      var g := BuildFrom(rows[..|rows| - 1]);
      var row := rows[|rows| - 1];
      BuildNoRepeats(rows[..|rows| - 1]);
      AddNamedNodeNoRepeats(g, row.codigo, row.nome);
    }
  }

  /** The name the last row with code `n` gives, if any row has that code. */
  function LastName(rows: seq<Record>, n: Node): Option<string> {
    if rows == [] then None
    else if rows[|rows| - 1].codigo == n then Some(rows[|rows| - 1].nome)
    else LastName(rows[..|rows| - 1], n)
  }

  /** `construir_grafo` without the file reading (lines 5-24). */
  method Build(rows: seq<Record>) returns (g: Graph)
    ensures g == BuildFrom(rows)
  {
    g := Empty;
    for i := 0 to |rows|
      invariant g == BuildFrom(rows[..i])
    {
      var row := rows[i];
      var deps := Dependencies(row.dependencias);
      g := AddNamedNode(g, row.codigo, row.nome);
      g := AddEdgesTo(g, deps, row.codigo);
      BuildStep(rows, i);
    }
    TakeAll(rows);
  }

  /** The inner loop of lines 21-22: one `add_edge(dep, codigo)` per dependency, in order. */
  method AddEdgesTo(g0: Graph, deps: seq<Node>, v: Node) returns (g: Graph)
    requires Valid(g0) && v in g0.nodes
    ensures g == AddDependencies(g0, deps, |deps|, v)
  {
    g := g0;
    for j := 0 to |deps|
      invariant g == AddDependencies(g0, deps, j, v)
    {
      g := AddEdge(g, deps[j], v);
    }
  }

  lemma BuildStep(rows: seq<Record>, i: nat)
    requires i < |rows|
    ensures BuildFrom(rows[..i + 1]) == AddRecord(BuildFrom(rows[..i]), rows[i])
  {
    assert rows[..i + 1][..i] == rows[..i];
  }

  /** Every code and listed dependency of the rows, in order. */
  function Mentions(rows: seq<Record>): seq<Node> {
    if rows == [] then []
    else
      var row := rows[|rows| - 1];
      Mentions(rows[..|rows| - 1]) + ([row.codigo] + Dependencies(row.dependencias))
  }

  /** The nodes are in the order the codes and dependencies are first mentioned, row by row:
      the order `max` (line 68) and the start list (line 54) scan them in. */
  lemma {:induction false} BuildOrder(rows: seq<Record>)
    ensures BuildFrom(rows).nodes == Appended([], Mentions(rows))
  {
    if rows != [] {
      var init := rows[..|rows| - 1];
      var row := rows[|rows| - 1];
      BuildOrder(init);
      AddRecordOrder(BuildFrom(init), row);
      AppendedConcat([], Mentions(init), [row.codigo] + Dependencies(row.dependencias));
    }
  }

  /** The nodes are exactly the codes of the rows and the dependencies they list. */
  lemma BuildNodes(rows: seq<Record>)
    ensures forall n :: n in BuildFrom(rows).nodes <==> DeclaredOrListed(rows, n)
  {
    BuildOrder(rows);
    forall n ensures n in Mentions(rows) <==> DeclaredOrListed(rows, n) {
      MentionsDeclared(rows, n);
    }
  }

  lemma {:induction false} MentionsDeclared(rows: seq<Record>, n: Node)
    ensures n in Mentions(rows) <==> DeclaredOrListed(rows, n)
  {
    if rows != [] {
      var init := rows[..|rows| - 1];
      MentionsDeclared(init, n);
      assert forall row :: row in rows <==> row in init || row == rows[|rows| - 1];
    }
  }

  /** Some row has code `n` or lists `n` as a dependency. */
  ghost predicate DeclaredOrListed(rows: seq<Record>, n: Node) {
    exists row :: row in rows && (row.codigo == n || n in Dependencies(row.dependencias))
  }

  /** A node has a name exactly when some row has its code, and the last such row names it;
      a repeated row overwrites the name. */
  lemma {:induction false} BuildNames(rows: seq<Record>)
    ensures forall n :: n in BuildFrom(rows).names <==> LastName(rows, n).Some?
    ensures forall n :: n in BuildFrom(rows).names ==> BuildFrom(rows).names[n] == LastName(rows, n).value
  {
    if rows != [] {
      BuildNames(rows[..|rows| - 1]);
    }
  }

  /** The edges are exactly `dep -> codigo` for every dependency a row lists; a repeated
      dependency gives one edge. */
  lemma {:induction false} BuildEdges(rows: seq<Record>)
    ensures forall u, v :: HasEdge(BuildFrom(rows), u, v) <==>
      exists row :: row in rows && row.codigo == v && u in Dependencies(row.dependencias)
  {
    if rows != [] {
      var init := rows[..|rows| - 1];
      BuildEdges(init);
      assert forall row :: row in rows <==> row in init || row == rows[|rows| - 1];
    }
  }

  /** `LastName` finds the code exactly when some row carries it. */
  lemma {:induction false} LastNameFound(rows: seq<Record>, n: Node)
    ensures LastName(rows, n).Some? <==> exists row :: row in rows && row.codigo == n
    ensures LastName(rows, n).Some? ==>
      exists row :: row in rows && row.codigo == n && row.nome == LastName(rows, n).value
  {
    if rows != [] {
      var init := rows[..|rows| - 1];
      LastNameFound(init, n);
      assert forall row :: row in rows <==> row in init || row == rows[|rows| - 1];
    }
  }

  /** A dependency that no row declares is a node without a name; looking its name up fails. */
  lemma ImplicitNodeUnnamed(rows: seq<Record>, n: Node)
    requires exists row :: row in rows && n in Dependencies(row.dependencias)
    requires forall row :: row in rows ==> row.codigo != n
    ensures n in BuildFrom(rows).nodes && n !in BuildFrom(rows).names
  {
    BuildNodes(rows);
    BuildNames(rows);
    LastNameFound(rows, n);
  }
}
