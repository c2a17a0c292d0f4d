/** `mod_dict_to_dag`: the module dictionary drawn as a directed graph, one
    edge per direct import, with the modules outside the project (vendor
    modules) declared once each as blue nodes and their edges coloured blue.
    The graph object keeps the statements it is given in order, as the
    graph-drawing library's digraph does; rendering it is not modelled. */
module Graph {
  import opened Modules

  /** One statement of the graph's body: a node declaration or an edge, and
      whether it carries the blue colour attribute. */
  datatype Stmt =
    | NodeStmt(id: string, blue: bool)
    | EdgeStmt(tail: string, head: string, blue: bool)

  class Digraph {
    const name: string
    const format: string
    var body: seq<Stmt>

    /** An empty graph with the given name and output format. */
    constructor (name: string, format: string)
      ensures this.name == name && this.format == format && body == []
    {
      this.name := name;
      this.format := format;
      body := [];
    }

    /** `node`: appends a node declaration. */
    method Node(id: string, blue: bool)
      modifies this
      ensures body == old(body) + [NodeStmt(id, blue)]
    {
      body := body + [NodeStmt(id, blue)];
    }

    /** `edge`: appends an edge. */
    method Edge(tail: string, head: string, blue: bool)
      modifies this
      ensures body == old(body) + [EdgeStmt(tail, head, blue)]
    {
      body := body + [EdgeStmt(tail, head, blue)];
    }
  }

  /** Module name to the names in its `direct_imports`. */
  type ImportGraph = map<string, set<string>>

  /** The import graph the module objects of `modDict` currently hold. */
  function ImportGraphOf(modDict: map<string, Module>): (g: ImportGraph)
    reads modDict.Values
    ensures g.Keys == modDict.Keys
  {
    map n | n in modDict :: modDict[n].directImports.Keys
  }

  /** The edge for the import of `t` by `s`: blue when `t` is not a module
      of `g`. */
  function DepEdge(g: ImportGraph, s: string, t: string): Stmt {
    EdgeStmt(s, t, t !in g)
  }

  /** A statement the drawing of `g` may contain: an edge from a module to
      one of its direct imports, blue exactly when the import is not a
      module of `g`; or a blue node for such a vendor module. */
  predicate Drawn(g: ImportGraph, x: Stmt) {
    match x
    case EdgeStmt(s, t, blue) => s in g && t in g[s] && blue == (t !in g)
    case NodeStmt(t, blue) => blue && t !in g && exists s | s in g :: t in g[s]
  }

  /** No statement occurs twice. */
  predicate Distinct(body: seq<Stmt>) {
    forall i, j | 0 <= i < j < |body| :: body[i] != body[j]
  }

  /** Every blue edge comes after the declaration of its head's node. */
  predicate DeclaredBeforeUse(body: seq<Stmt>) {
    forall i | 0 <= i < |body| && body[i].EdgeStmt? && body[i].blue ::
      exists j | 0 <= j < i :: body[j] == NodeStmt(body[i].head, true)
  }

  /** The statements emitted so far: edges from the modules in `done` and,
      for the module `cur` being visited, edges to the imports in `heads`. */
  predicate Emitted(g: ImportGraph, body: seq<Stmt>, done: set<string>, cur: string, heads: set<string>) {
    forall i | 0 <= i < |body| && body[i].EdgeStmt? ::
      body[i].tail in done || (body[i].tail == cur && body[i].head in heads)
  }

  /** `body` is a drawing of `g` in progress: every module of `done` and
      the imports `heads` of module `cur` have their edges, nothing else
      does, `vendor` holds the declared nodes, no statement repeats and each
      vendor node comes before its first edge. */
  ghost predicate Drawing(g: ImportGraph, body: seq<Stmt>, vendor: set<string>, done: set<string>, cur: string, heads: set<string>) {
    && (forall i | 0 <= i < |body| :: Drawn(g, body[i]))
    && (forall s, t | s in done && s in g && t in g[s] :: DepEdge(g, s, t) in body)
    && (forall t | t in heads :: DepEdge(g, cur, t) in body)
    && (forall t :: t in vendor <==> NodeStmt(t, true) in body)
    && Emitted(g, body, done, cur, heads)
    && Distinct(body) && DeclaredBeforeUse(body)
  }

  /** Graph `dag` named `graphName` in the `pdf` format, drawn from the
      import graph of `modDict`: every statement is a dependency edge or a
      vendor node, every dependency has its edge, no statement repeats, and
      each vendor node is declared before the first edge that reaches it. */
  method ModDictToDag(modDict: map<string, Module>, graphName: string) returns (dag: Digraph)
    ensures fresh(dag) && dag.name == graphName && dag.format == "pdf"
    ensures var g := ImportGraphOf(modDict);
      forall i | 0 <= i < |dag.body| :: Drawn(g, dag.body[i])
    ensures var g := ImportGraphOf(modDict);
      forall s, t | s in g && t in g[s] :: DepEdge(g, s, t) in dag.body
    ensures Distinct(dag.body) && DeclaredBeforeUse(dag.body)
  {
    var g := ImportGraphOf(modDict);
    dag := new Digraph(graphName, "pdf");
    DrawModules(g, dag);
  }

  /** The outer loop of `mod_dict_to_dag`: every module of `g` in turn,
      drawn onto the empty graph `dag`. */
  method DrawModules(g: ImportGraph, dag: Digraph)
    requires dag.body == []
    modifies dag
    ensures forall i | 0 <= i < |dag.body| :: Drawn(g, dag.body[i])
    ensures forall s, t | s in g && t in g[s] :: DepEdge(g, s, t) in dag.body
    ensures Distinct(dag.body) && DeclaredBeforeUse(dag.body)
  {
    var vendorMods: set<string> := {};
    var remaining := g.Keys;
    ghost var done: set<string> := {};
    while remaining != {}
      invariant remaining !! done && remaining + done == g.Keys
      invariant Drawing(g, dag.body, vendorMods, done, "", {})
      decreases |remaining|
    {
      var name :| name in remaining;
      StartVisit(g, dag.body, vendorMods, done, name);
      vendorMods := DrawImports(g, dag, vendorMods, done, name);
      VisitDone(g, dag.body, vendorMods, done, name);
      MoveOne(remaining, done, name);
      remaining := remaining - {name};
      done := done + {name};
    }
    DrawingComplete(g, dag.body, vendorMods);
  }

  /** The inner loop of `mod_dict_to_dag`: the edges from module `name` to
      each of its direct imports, each vendor import declared as a node
      first unless `vendorMods` already holds it. */
  method DrawImports(g: ImportGraph, dag: Digraph, vendorMods: set<string>, ghost done: set<string>, name: string)
    returns (vendor: set<string>)
    requires name in g && name !in done
    requires Drawing(g, dag.body, vendorMods, done, name, {})
    modifies dag
    ensures Drawing(g, dag.body, vendor, done, name, g[name])
  {
    vendor := vendorMods;
    var imports := g[name];
    ghost var heads: set<string> := {};
    while imports != {}
      invariant imports !! heads && imports + heads == g[name]
      invariant Drawing(g, dag.body, vendor, done, name, heads)
      decreases |imports|
    {
      var di :| di in imports;
      var blue := di !in g;
      if blue && di !in vendor {
        DeclareNode(g, dag.body, vendor, done, name, heads, di);
        dag.Node(di, true);
        vendor := vendor + {di};
      }
      EmitEdge(g, dag.body, vendor, done, name, heads, di);
      dag.Edge(name, di, blue);
      MoveOne(imports, heads, di);
      imports := imports - {di};
      heads := heads + {di};
    }
  }

  lemma MoveOne<T>(a: set<T>, b: set<T>, x: T)
    requires x in a && a !! b
    ensures (a - {x}) !! (b + {x}) && (a - {x}) + (b + {x}) == a + b
  {
  }

  /** Declaring the node of an import `t` of `cur` outside `g` keeps the
      drawing. */
  lemma DeclareNode(g: ImportGraph, body: seq<Stmt>, vendor: set<string>, done: set<string>, cur: string, heads: set<string>, t: string)
    requires Drawing(g, body, vendor, done, cur, heads)
    requires cur in g && t in g[cur] && t !in g && t !in vendor
    ensures Drawing(g, body + [NodeStmt(t, true)], vendor + {t}, done, cur, heads)
  {
    var b := body + [NodeStmt(t, true)];
    forall i | 0 <= i < |b| && b[i].EdgeStmt? && b[i].blue
      ensures exists j | 0 <= j < i :: b[j] == NodeStmt(b[i].head, true)
    {
      var j :| 0 <= j < i && body[j] == NodeStmt(body[i].head, true);
      assert b[j] == body[j];
    }
  }

  /** Emitting the edge from the visited module `cur` to a not yet visited
      import `t`, once a vendor `t` is declared, keeps the drawing. */
  lemma EmitEdge(g: ImportGraph, body: seq<Stmt>, vendor: set<string>, done: set<string>, cur: string, heads: set<string>, t: string)
    requires Drawing(g, body, vendor, done, cur, heads)
    requires cur in g && cur !in done && t in g[cur] && t !in heads
    requires t !in g ==> t in vendor
    ensures Drawing(g, body + [DepEdge(g, cur, t)], vendor, done, cur, heads + {t})
  {
    var b := body + [DepEdge(g, cur, t)];
    assert DepEdge(g, cur, t) !in body;
    forall i | 0 <= i < |b| && b[i].EdgeStmt? && b[i].blue
      ensures exists j | 0 <= j < i :: b[j] == NodeStmt(b[i].head, true)
    {
      if i < |body| {
        var j :| 0 <= j < i && body[j] == NodeStmt(body[i].head, true);
        assert b[j] == body[j];
      } else {
        var j :| 0 <= j < |body| && body[j] == NodeStmt(t, true);
        assert b[j] == body[j];
      }
    }
  }

  /** Visiting a new module keeps the drawing. */
  lemma StartVisit(g: ImportGraph, body: seq<Stmt>, vendor: set<string>, done: set<string>, cur: string)
    requires Drawing(g, body, vendor, done, "", {})
    ensures Drawing(g, body, vendor, done, cur, {})
  {
  }

  /** Once every import of `cur` has its edge, `cur` joins the visited
      modules. */
  lemma VisitDone(g: ImportGraph, body: seq<Stmt>, vendor: set<string>, done: set<string>, cur: string)
    requires cur in g && Drawing(g, body, vendor, done, cur, g[cur])
    ensures Drawing(g, body, vendor, done + {cur}, "", {})
  {
  }

  /** A drawing that has visited every module is complete. */
  lemma DrawingComplete(g: ImportGraph, body: seq<Stmt>, vendor: set<string>)
    requires Drawing(g, body, vendor, g.Keys, "", {})
    ensures forall i | 0 <= i < |body| :: Drawn(g, body[i])
    ensures forall s, t | s in g && t in g[s] :: DepEdge(g, s, t) in body
    ensures Distinct(body) && DeclaredBeforeUse(body)
  {
  }

  /** In a drawing that has every dependency edge and declares each blue
      edge's head first, the nodes are exactly the vendor modules: the
      imports that are not modules of `g`. */
  lemma VendorNodes(g: ImportGraph, body: seq<Stmt>)
    requires forall i | 0 <= i < |body| :: Drawn(g, body[i])
    requires forall s, t | s in g && t in g[s] :: DepEdge(g, s, t) in body
    requires DeclaredBeforeUse(body)
    ensures forall t :: NodeStmt(t, true) in body <==> t !in g && exists s | s in g :: t in g[s]
    ensures forall t, blue :: NodeStmt(t, blue) in body ==> blue
  {
    forall t | t !in g && exists s | s in g :: t in g[s]
      ensures NodeStmt(t, true) in body
    {
      var s :| s in g && t in g[s];
      assert EdgeStmt(s, t, true) in body;
      var i :| 0 <= i < |body| && body[i] == EdgeStmt(s, t, true);
      var j :| 0 <= j < i && body[j] == NodeStmt(t, true);
    }
    forall t | NodeStmt(t, true) in body
      ensures t !in g && exists s | s in g :: t in g[s]
    {
      var i :| 0 <= i < |body| && body[i] == NodeStmt(t, true);
      assert Drawn(g, body[i]);
    }
    forall t, blue | NodeStmt(t, blue) in body
      ensures blue
    {
      var i :| 0 <= i < |body| && body[i] == NodeStmt(t, blue);
      assert Drawn(g, body[i]);
    }
  }
}
