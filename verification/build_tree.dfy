/**
 The top-level loop: every path in the story index, in iteration order, has
 its usage tree parsed and walked, and the resulting list becomes the
 dependencies of the path's title. The graph starts empty and is threaded
 from one root to the next.
 */
module BuildTree {
  import opened UsageTree
  import opened StoryIndex
  import opened DependencyGraph
  import opened TraversalSpec

  /**
   One iteration for component path `p`: materialise the node of `p`'s
   title (keeping dependents other roots already appended), walk the parsed
   tree, and overwrite the title's dependencies with the result.
   */
  function ProcessRoot(idx: Index, barrel: (string, Path) -> Path, parse: Path -> Node,
                       p: Path, g: Graph): (r: Graph)
    requires p in idx.titles
    ensures idx.titles[p] in r
    ensures r[idx.titles[p]].dependencies == Dependencies(idx, barrel, parse(p), [], map[]).0
  {
    var t := idx.titles[p];
    var g1 := GetRootNode(g, t);
    var walked := Dependencies(idx, barrel, parse(p), [], g1);
    DependenciesIgnoreGraph(idx, barrel, parse(p), [], g1, map[]);
    DependenciesGrow(idx, barrel, parse(p), [], g1);
    walked.1[t := walked.1[t].(dependencies := walked.0)]
  }

  /**
   What one iteration does to the rest of the graph: nodes are only added,
   and only for index titles; dependents lists only grow; no title but the
   root's gets new dependencies, and a node created on the way has none.
   */
  lemma ProcessRootFrame(idx: Index, barrel: (string, Path) -> Path, parse: Path -> Node,
                         p: Path, g: Graph)
    requires p in idx.titles
    ensures var r := ProcessRoot(idx, barrel, parse, p, g);
            && g.Keys <= r.Keys
            && (forall u | u in r && u !in g :: u in idx.titles.Values)
            && (forall u | u in g :: g[u].dependents <= r[u].dependents)
            && (forall u | u in g && u != idx.titles[p] :: r[u].dependencies == g[u].dependencies)
            && (forall u | u in r && u !in g && u != idx.titles[p] :: r[u].dependencies == [])
  {
    var t := idx.titles[p];
    var g1 := GetRootNode(g, t);
    var walked := Dependencies(idx, barrel, parse(p), [], g1);
    DependenciesGrow(idx, barrel, parse(p), [], g1);
    assert ProcessRoot(idx, barrel, parse, p, g) == walked.1[t := walked.1[t].(dependencies := walked.0)];
  }

  /** The loop over `keys`, first to last, starting from graph `g`. */
  function Sweep(idx: Index, barrel: (string, Path) -> Path, parse: Path -> Node,
                 keys: seq<Path>, g: Graph): Graph
    requires forall k | k in keys :: k in idx.titles
    decreases |keys|
  {
    if keys == [] then g
    else Sweep(idx, barrel, parse, keys[1..], ProcessRoot(idx, barrel, parse, keys[0], g))
  }

  /**
   What the sweep does to the graph as a whole: every processed path's
   title gets a node, every new node is an index title, and dependents
   lists only grow.
   */
  lemma {:induction false} SweepGrows(idx: Index, barrel: (string, Path) -> Path, parse: Path -> Node,
                                      keys: seq<Path>, g: Graph)
    requires forall k | k in keys :: k in idx.titles
    ensures var r := Sweep(idx, barrel, parse, keys, g);
            && g.Keys <= r.Keys
            && (forall k | k in keys :: idx.titles[k] in r)
            && (forall u | u in r && u !in g :: u in idx.titles.Values)
            && (forall u | u in g :: g[u].dependents <= r[u].dependents)
    decreases |keys|
  {
    if keys != [] {
      var g1 := ProcessRoot(idx, barrel, parse, keys[0], g);
      var rest := keys[1..];
      var r := Sweep(idx, barrel, parse, rest, g1);
      assert Sweep(idx, barrel, parse, keys, g) == r;
      ProcessRootFrame(idx, barrel, parse, keys[0], g);
      SweepGrows(idx, barrel, parse, rest, g1);
      assert forall k | k in keys :: k == keys[0] || k in rest;
      forall u | u in g
        ensures g[u].dependents <= r[u].dependents
      {
        assert g[u].dependents <= g1[u].dependents <= r[u].dependents;
      }
    }
  }

  /**
   The whole builder: index the stories, then sweep every indexed path in
   iteration order. The graph has a node for exactly the indexed titles.
   */
  function BuildGraph(entries: seq<StoryEntry>, ext: Path -> Path, barrel: (string, Path) -> Path,
                      parse: Path -> Node): (r: Graph)
    ensures r.Keys == BuildIndex(entries, ext).titles.Values
  {
    var idx := BuildIndex(entries, ext);
    var r := Sweep(idx, barrel, parse, idx.order, map[]);
    SweepGrows(idx, barrel, parse, idx.order, map[]);
    assert forall v | v in idx.titles.Values :: v in r by {
      forall v | v in idx.titles.Values ensures v in r {
        var k :| k in idx.titles && idx.titles[k] == v;
        assert k in idx.order;
      }
    }
    r
  }

  /** A title that no processed path carries keeps the dependencies it had, or none if it is new. */
  lemma {:induction false} SweepKeepsOtherTitles(idx: Index, barrel: (string, Path) -> Path, parse: Path -> Node,
                                                 keys: seq<Path>, g: Graph, t: Title)
    requires forall k | k in keys :: k in idx.titles
    requires forall i | 0 <= i < |keys| :: idx.titles[keys[i]] != t
    ensures t in g ==> t in Sweep(idx, barrel, parse, keys, g)
                       && Sweep(idx, barrel, parse, keys, g)[t].dependencies == g[t].dependencies
    ensures t !in g && t in Sweep(idx, barrel, parse, keys, g) ==>
              Sweep(idx, barrel, parse, keys, g)[t].dependencies == []
    decreases |keys|
  {
    if keys != [] {
      var g1 := ProcessRoot(idx, barrel, parse, keys[0], g);
      var rest := keys[1..];
      assert idx.titles[keys[0]] != t;
      ProcessRootFrame(idx, barrel, parse, keys[0], g);
      assert forall j | 0 <= j < |rest| :: rest[j] == keys[j + 1];
      SweepKeepsOtherTitles(idx, barrel, parse, rest, g1, t);
    }
  }

  /**
   When several paths share a title, the dependencies that survive the
   sweep are those of the last such path processed.
   */
  lemma {:induction false} SweepLastRootWins(idx: Index, barrel: (string, Path) -> Path, parse: Path -> Node,
                                             keys: seq<Path>, g: Graph, i: nat)
    requires forall k | k in keys :: k in idx.titles
    requires i < |keys|
    requires forall j | i < j < |keys| :: idx.titles[keys[j]] != idx.titles[keys[i]]
    ensures idx.titles[keys[i]] in Sweep(idx, barrel, parse, keys, g)
    ensures Sweep(idx, barrel, parse, keys, g)[idx.titles[keys[i]]].dependencies
            == Dependencies(idx, barrel, parse(keys[i]), [], map[]).0
    decreases |keys|, 1
  {
    if i == 0 {
      FirstRootWins(idx, barrel, parse, keys, g);
    } else {
      LaterRootWins(idx, barrel, parse, keys, g, i);
    }
  }

  /** The base case of `SweepLastRootWins`: the first path's title appears on no later path. */
  lemma FirstRootWins(idx: Index, barrel: (string, Path) -> Path, parse: Path -> Node,
                      keys: seq<Path>, g: Graph)
    requires forall k | k in keys :: k in idx.titles
    requires 0 < |keys|
    requires forall j | 0 < j < |keys| :: idx.titles[keys[j]] != idx.titles[keys[0]]
    ensures idx.titles[keys[0]] in Sweep(idx, barrel, parse, keys, g)
    ensures Sweep(idx, barrel, parse, keys, g)[idx.titles[keys[0]]].dependencies
            == Dependencies(idx, barrel, parse(keys[0]), [], map[]).0
  {
    var t := idx.titles[keys[0]];
    var g1 := ProcessRoot(idx, barrel, parse, keys[0], g);
    var rest := keys[1..];
    assert t in g1 && g1[t].dependencies == Dependencies(idx, barrel, parse(keys[0]), [], map[]).0;
    assert Sweep(idx, barrel, parse, keys, g) == Sweep(idx, barrel, parse, rest, g1);
    assert forall j | 0 <= j < |rest| :: idx.titles[rest[j]] != t by {
      assert forall j | 0 <= j < |rest| :: rest[j] == keys[j + 1];
    }
    SweepKeepsOtherTitles(idx, barrel, parse, rest, g1, t);
  }

  /** The inductive step of `SweepLastRootWins` for a path after the first. */
  lemma {:induction false} LaterRootWins(idx: Index, barrel: (string, Path) -> Path, parse: Path -> Node,
                                         keys: seq<Path>, g: Graph, i: nat)
    requires forall k | k in keys :: k in idx.titles
    requires 0 < i < |keys|
    requires forall j | i < j < |keys| :: idx.titles[keys[j]] != idx.titles[keys[i]]
    ensures idx.titles[keys[i]] in Sweep(idx, barrel, parse, keys, g)
    ensures Sweep(idx, barrel, parse, keys, g)[idx.titles[keys[i]]].dependencies
            == Dependencies(idx, barrel, parse(keys[i]), [], map[]).0
    decreases |keys|, 0
  {
    var rest := keys[1..];
    var g1 := ProcessRoot(idx, barrel, parse, keys[0], g);
    assert rest[i - 1] == keys[i];
    assert forall j | i - 1 < j < |rest| :: rest[j] == keys[j + 1];
    SweepLastRootWins(idx, barrel, parse, rest, g1, i - 1);
  }

  /**
   Every reverse edge any root's walk finds survives to the end of the
   sweep: the nearest documented ancestor of a reached child is among that
   child's dependents in the final graph.
   */
  lemma {:induction false} SweepKeepsEdges(idx: Index, barrel: (string, Path) -> Path, parse: Path -> Node,
                                           keys: seq<Path>, g: Graph, k: Path, p: seq<nat>, h: Hit, a: Title)
    requires forall k | k in keys :: k in idx.titles
    requires k in keys
    requires Reaches(idx, barrel, parse(k).children, [parse(k).filePath], p, h)
    requires NearestDocumented(idx, h.above) == Some(a)
    ensures h.title in Sweep(idx, barrel, parse, keys, g)
    ensures a in Sweep(idx, barrel, parse, keys, g)[h.title].dependents
    decreases |keys|
  {
    var g1 := ProcessRoot(idx, barrel, parse, keys[0], g);
    var rest := keys[1..];
    var r := Sweep(idx, barrel, parse, rest, g1);
    assert Sweep(idx, barrel, parse, keys, g) == r;
    if k in rest {
      SweepKeepsEdges(idx, barrel, parse, rest, g1, k, p, h, a);
    } else {
      assert k == keys[0];
      assert h.title in g1 && a in g1[h.title].dependents by {
        RootRecordsEdge(idx, barrel, parse, k, g, p, h, a);
      }
      assert h.title in r && a in r[h.title].dependents by {
        SweepGrows(idx, barrel, parse, rest, g1);
        PrefixKeepsMember(g1[h.title].dependents, r[h.title].dependents, a);
      }
    }
  }

  /**
   Dependents invert dependencies: when the parser gives a root its own
   path and the root's title is not empty, every title its walk reaches
   through wrappers that are not barrel re-exports lists the root's title
   among its dependents once the sweep is over.
   */
  lemma RootIsDependent(idx: Index, barrel: (string, Path) -> Path, parse: Path -> Node,
                        keys: seq<Path>, g: Graph, k: Path, p: seq<nat>, h: Hit)
    requires forall k | k in keys :: k in idx.titles
    requires k in keys
    requires parse(k).filePath == k && idx.titles[k] != ""
    requires Reaches(idx, barrel, parse(k).children, [k], p, h)
    requires WrappersPlain(parse(k).children, p)
    ensures h.title in Sweep(idx, barrel, parse, keys, g)
    ensures idx.titles[k] in Sweep(idx, barrel, parse, keys, g)[h.title].dependents
  {
    var t := idx.titles[k];
    ClimbMatchesDescent(idx, barrel, parse(k).children, [k], p, h);
    assert NearestDocumented(idx, [k]) == Some(t) by {
      assert Truthy(SearchStory(idx, [k][0]));
    }
    SweepKeepsEdges(idx, barrel, parse, keys, g, k, p, h, t);
  }

  /** The reverse edges one root's walk finds are in the graph after that root is processed. */
  lemma RootRecordsEdge(idx: Index, barrel: (string, Path) -> Path, parse: Path -> Node,
                        k: Path, g: Graph, p: seq<nat>, h: Hit, a: Title)
    requires k in idx.titles
    requires Reaches(idx, barrel, parse(k).children, [parse(k).filePath], p, h)
    requires NearestDocumented(idx, h.above) == Some(a)
    ensures h.title in ProcessRoot(idx, barrel, parse, k, g)
    ensures a in ProcessRoot(idx, barrel, parse, k, g)[h.title].dependents
  {
    var root := parse(k);
    var t := idx.titles[k];
    var g0 := GetRootNode(g, t);
    var walked := Dependencies(idx, barrel, root, [], g0);
    assert h.title in walked.1 && a in walked.1[h.title].dependents by {
      assert [root.filePath] + [] == [root.filePath];
      DependentEdge(idx, barrel, root, [], g0, p, h, a);
    }
    assert t in walked.1 by {
      DependenciesGrow(idx, barrel, root, [], g0);
    }
    var r := walked.1[t := walked.1[t].(dependencies := walked.0)];
    assert ProcessRoot(idx, barrel, parse, k, g) == r;
    assert r[h.title].dependents == walked.1[h.title].dependents;
  }

  lemma PrefixKeepsMember(s: seq<Title>, s2: seq<Title>, a: Title)
    requires s <= s2 && a in s
    ensures a in s2
  {
    var k :| 0 <= k < |s| && s[k] == a;
    assert s2[k] == a;
  }

  /**
   In the built graph, each title's dependencies are the walk of the last
   indexed path carrying that title.
   */
  lemma BuildGraphLastRootWins(entries: seq<StoryEntry>, ext: Path -> Path, barrel: (string, Path) -> Path,
                               parse: Path -> Node, i: nat)
    requires i < |BuildIndex(entries, ext).order|
    requires var idx := BuildIndex(entries, ext);
             forall j | i < j < |idx.order| :: idx.titles[idx.order[j]] != idx.titles[idx.order[i]]
    ensures var idx := BuildIndex(entries, ext);
            BuildGraph(entries, ext, barrel, parse)[idx.titles[idx.order[i]]].dependencies
            == Dependencies(idx, barrel, parse(idx.order[i]), [], map[]).0
  {
    var idx := BuildIndex(entries, ext);
    SweepLastRootWins(idx, barrel, parse, idx.order, map[], i);
  }
}
