/**
 The dependency graph and the two traversals that fill it:
 `dependenciesRecursive` walks down a usage tree collecting the nearest
 documented components, and `dependentsRecursive` climbs from each of them to
 the nearest documented ancestor and records the reverse edge.

 The source mutates one shared `tree` object; here the graph is threaded
 through the functions as an argument and a result.
 */
module DependencyGraph {
  import opened UsageTree
  import opened StoryIndex

  /** One entry of the graph: the titles a story uses and the titles that use it. */
  datatype GraphNode = GraphNode(dependencies: seq<Title>, dependents: seq<Title>)

  /** The `tree` object: one node per title, created on first reference. */
  type Graph = map<Title, GraphNode>

  /** The node a title gets when it is first referenced. */
  function Fresh(): GraphNode {
    GraphNode([], [])
  }

  /** The node `getRootNode(t)` hands back: the stored one, or a fresh one. */
  function NodeOf(g: Graph, t: Title): GraphNode {
    if t in g then g[t] else Fresh()
  }

  /**
   `getRootNode`: makes sure `t` has a node, creating an empty one if it
   has none, and never touching one that already exists.
   */
  function GetRootNode(g: Graph, t: Title): (r: Graph)
    ensures r.Keys == g.Keys + {t}
    ensures forall u | u in g :: r[u] == g[u]
    ensures r[t] == NodeOf(g, t)
  {
    if t in g then g else g[t := Fresh()]
  }

  /** Materialising a title twice is the same as once: the second call finds the node and hands it back. */
  lemma GetRootNodeIdempotent(g: Graph, t: Title)
    ensures GetRootNode(GetRootNode(g, t), t) == GetRootNode(g, t)
  {
  }

  /**
   `getRootNode(t).dependents.push(a)`: one more dependent at the end of
   `t`'s list; nothing else in the graph changes.
   */
  function AddDependent(g: Graph, t: Title, a: Title): (r: Graph)
    ensures r.Keys == g.Keys + {t}
    ensures forall u | u in g && u != t :: r[u] == g[u]
    ensures r[t].dependencies == NodeOf(g, t).dependencies
    ensures r[t].dependents == NodeOf(g, t).dependents + [a]
  {
    var g1 := GetRootNode(g, t);
    g1[t := g1[t].(dependents := g1[t].dependents + [a])]
  }

  /**
   The title of the nearest ancestor whose own file path is documented,
   looked up directly (no barrel resolution). `above` lists the ancestors'
   paths, nearest first.
   */
  function NearestDocumented(idx: Index, above: seq<Path>): Option<Title>
    decreases |above|
  {
    if |above| == 0 then None
    else if Truthy(SearchStory(idx, above[0])) then SearchStory(idx, above[0])
    else NearestDocumented(idx, above[1..])
  }

  /** The climb finds no target exactly when no ancestor path is documented. */
  lemma {:induction false} NearestDocumentedNone(idx: Index, above: seq<Path>)
    ensures NearestDocumented(idx, above).None? <==> forall k | 0 <= k < |above| :: !Truthy(SearchStory(idx, above[k]))
    decreases |above|
  {
    if |above| > 0 && !Truthy(SearchStory(idx, above[0])) {
      NearestDocumentedNone(idx, above[1..]);
      assert forall k | 1 <= k < |above| :: above[k] == above[1..][k - 1];
    }
  }

  /** The climb's target is the title at the first documented position among the ancestors. */
  lemma {:induction false} NearestDocumentedIsFirst(idx: Index, above: seq<Path>, k: nat)
    requires k < |above| && Truthy(SearchStory(idx, above[k]))
    requires forall j | 0 <= j < k :: !Truthy(SearchStory(idx, above[j]))
    ensures NearestDocumented(idx, above) == SearchStory(idx, above[k])
    decreases k
  {
    if k > 0 {
      assert !Truthy(SearchStory(idx, above[0]));
      assert forall j | 0 <= j < k - 1 :: above[1..][j] == above[j + 1];
      NearestDocumentedIsFirst(idx, above[1..], k - 1);
    }
  }

  /**
   `dependentsRecursive(nodeTitle, node)`, where `above` are the paths of
   `node`'s ancestors, nearest first: with no parent nothing happens;
   otherwise the climb stops at the first documented ancestor and appends
   its title to `nodeTitle`'s dependents, or records nothing when the chain
   runs out.
   */
  function DependentsRecursive(idx: Index, nodeTitle: Title, above: seq<Path>, g: Graph): (r: Graph)
    ensures above == [] ==> r == g
    decreases |above|
  {
    if |above| == 0 then g
    else
      var parentTitle := SearchStory(idx, above[0]);
      if !Truthy(parentTitle) then DependentsRecursive(idx, nodeTitle, above[1..], g)
      else AddDependent(g, nodeTitle, parentTitle.value)
  }

  /**
   When some ancestor is documented, the climb appends the nearest one's
   title to `nodeTitle`'s dependents and changes nothing else.
   */
  lemma {:induction false} ClimbAppends(idx: Index, nodeTitle: Title, above: seq<Path>, g: Graph)
    ensures match NearestDocumented(idx, above)
            case None => DependentsRecursive(idx, nodeTitle, above, g) == g
            case Some(a) => DependentsRecursive(idx, nodeTitle, above, g) == AddDependent(g, nodeTitle, a)
    decreases |above|
  {
    if |above| > 0 && !Truthy(SearchStory(idx, above[0])) {
      ClimbAppends(idx, nodeTitle, above[1..], g);
    }
  }

  /**
   The title a child resolves to: through the barrel-file resolver when the
   parser flagged the child with `error`, by its own file path otherwise.
   */
  function Resolve(idx: Index, barrel: (string, Path) -> Path, c: Node): Option<Title> {
    if c.error then SearchStory(idx, barrel(c.name, c.filePath)) else SearchStory(idx, c.filePath)
  }

  /** What a traversal may do to an existing graph: add nodes for documented titles, and append dependents. */
  ghost predicate Grows(idx: Index, g: Graph, r: Graph) {
    && g.Keys <= r.Keys
    && (forall u | u in r && u !in g :: u in idx.titles.Values && u != "" && r[u].dependencies == [])
    && (forall u | u in g :: r[u].dependencies == g[u].dependencies && g[u].dependents <= r[u].dependents)
  }

  /** Growth composes: two traversals in a row may only do what one may. */
  lemma GrowsTransitive(idx: Index, g: Graph, m: Graph, r: Graph)
    requires Grows(idx, g, m) && Grows(idx, m, r)
    ensures Grows(idx, g, r)
  {
    forall u | u in g
      ensures g[u].dependents <= r[u].dependents
    {
      assert g[u].dependents <= m[u].dependents <= r[u].dependents;
    }
  }

  /** A climb for a documented title only grows the graph. */
  lemma ClimbGrows(idx: Index, t: Title, above: seq<Path>, g: Graph)
    requires t in idx.titles.Values && t != ""
    ensures Grows(idx, g, DependentsRecursive(idx, t, above, g))
  {
    ClimbAppends(idx, t, above, g);
  }

  /**
   The `children.map(...).flat()` part of `dependenciesRecursive`: `kids`
   are siblings whose ancestors' paths are `above`. A child that resolves
   to a documented title contributes that one title (after recording the
   reverse edge) and is not explored further; any other child contributes
   what its own children contribute. Children are handled left to right,
   and the graph produced by one is the graph the next one sees.
   */
  function ChildrenDependencies(idx: Index, barrel: (string, Path) -> Path, kids: seq<Node>,
                                above: seq<Path>, g: Graph): (r: (seq<Title>, Graph))
    ensures forall k | 0 <= k < |r.0| :: r.0[k] in idx.titles.Values && r.0[k] != ""
    decreases kids
  {
    if kids == [] then ([], g)
    else
      var c := kids[0];
      var title := Resolve(idx, barrel, c);
      var here :=
        if Truthy(title) then ([title.value], DependentsRecursive(idx, title.value, above, g))
        else ChildrenDependencies(idx, barrel, c.children, [c.filePath] + above, g);
      var rest := ChildrenDependencies(idx, barrel, kids[1..], above, here.1);
      (here.0 + rest.0, rest.1)
  }

  /**
   What the walk may do to the graph it is given: add nodes, only for
   non-empty index titles and with no dependencies; keep every existing
   node's dependencies; and only append to dependents lists.
   */
  lemma {:induction false} ChildrenGrow(idx: Index, barrel: (string, Path) -> Path, kids: seq<Node>,
                                        above: seq<Path>, g: Graph)
    ensures Grows(idx, g, ChildrenDependencies(idx, barrel, kids, above, g).1)
    decreases kids
  {
    if kids != [] {
      var c := kids[0];
      var title := Resolve(idx, barrel, c);
      var here :=
        if Truthy(title) then ([title.value], DependentsRecursive(idx, title.value, above, g))
        else ChildrenDependencies(idx, barrel, c.children, [c.filePath] + above, g);
      var rest := ChildrenDependencies(idx, barrel, kids[1..], above, here.1);
      assert ChildrenDependencies(idx, barrel, kids, above, g).1 == rest.1;
      if Truthy(title) {
        ClimbGrows(idx, title.value, above, g);
      } else {
        ChildrenGrow(idx, barrel, c.children, [c.filePath] + above, g);
      }
      ChildrenGrow(idx, barrel, kids[1..], above, here.1);
      GrowsTransitive(idx, g, here.1, rest.1);
    }
  }

  /**
   `dependenciesRecursive(node)`, where `above` are the paths of `node`'s
   ancestors: the children see `node` as their nearest ancestor. A node
   without children yields no dependencies and leaves the graph alone.
   */
  function Dependencies(idx: Index, barrel: (string, Path) -> Path, n: Node,
                        above: seq<Path>, g: Graph): (r: (seq<Title>, Graph))
    ensures n.children == [] ==> r == ([], g)
    ensures forall k | 0 <= k < |r.0| :: r.0[k] in idx.titles.Values && r.0[k] != ""
  {
    ChildrenDependencies(idx, barrel, n.children, [n.filePath] + above, g)
  }

  /** The walk from a node grows the graph as the walk over its children does. */
  lemma DependenciesGrow(idx: Index, barrel: (string, Path) -> Path, n: Node, above: seq<Path>, g: Graph)
    ensures Grows(idx, g, Dependencies(idx, barrel, n, above, g).1)
  {
    ChildrenGrow(idx, barrel, n.children, [n.filePath] + above, g);
  }
}
