/**
 A reference account of what one downward traversal computes, with the
 graph left out: the "frontier" of documented components reachable from a
 node through undocumented wrappers, each with the paths of its ancestors.
 The traversal's dependency list is the frontier's titles, and its effect
 on the graph is one upward climb per frontier entry, in order.
 */
module TraversalSpec {
  import opened UsageTree
  import opened StoryIndex
  import opened DependencyGraph

  /** A documented component met by the traversal, with its ancestors' paths, nearest first. */
  datatype Hit = Hit(title: Title, above: seq<Path>)

  /**
   Branch characterisation of a frontier entry: `p` is a list of child
   indices leading from the siblings `kids` to a child that resolves to a
   documented title, and every node passed on the way resolves to none.
   */
  ghost predicate Reaches(idx: Index, barrel: (string, Path) -> Path, kids: seq<Node>,
                          above: seq<Path>, p: seq<nat>, h: Hit)
    decreases p
  {
    && |p| > 0
    && p[0] < |kids|
    && var c := kids[p[0]];
       var t := Resolve(idx, barrel, c);
       if |p| == 1 then Truthy(t) && h == Hit(t.value, above)
       else !Truthy(t) && Reaches(idx, barrel, c.children, [c.filePath] + above, p[1..], h)
  }

  /**
   No wrapper passed on branch `p` is flagged as a barrel re-export (the
   child the branch ends at may be).
   */
  ghost predicate WrappersPlain(kids: seq<Node>, p: seq<nat>)
    decreases p
  {
    && |p| > 0
    && p[0] < |kids|
    && (|p| == 1 || (!kids[p[0]].error && WrappersPlain(kids[p[0]].children, p[1..])))
  }

  /** The frontier of the siblings `kids`, in traversal order, duplicates kept. */
  function Frontier(idx: Index, barrel: (string, Path) -> Path, kids: seq<Node>, above: seq<Path>): seq<Hit>
    decreases kids
  {
    if kids == [] then []
    else
      var c := kids[0];
      var t := Resolve(idx, barrel, c);
      (if Truthy(t) then [Hit(t.value, above)]
       else Frontier(idx, barrel, c.children, [c.filePath] + above))
      + Frontier(idx, barrel, kids[1..], above)
  }

  /** The titles of a list of hits, in order. */
  function Titles(hits: seq<Hit>): seq<Title>
    decreases |hits|
  {
    if hits == [] then [] else [hits[0].title] + Titles(hits[1..])
  }

  /** One upward climb per hit, left to right, starting from graph `g`. */
  function Record(idx: Index, g: Graph, hits: seq<Hit>): Graph
    decreases |hits|
  {
    if hits == [] then g
    else Record(idx, DependentsRecursive(idx, hits[0].title, hits[0].above, g), hits[1..])
  }

  /** The dependent the climb for `h` appends to title `t`: none, or the nearest documented ancestor. */
  function EdgeTo(idx: Index, t: Title, h: Hit): seq<Title> {
    if h.title == t && NearestDocumented(idx, h.above).Some?
    then [NearestDocumented(idx, h.above).value] else []
  }

  /** The dependents the climbs for `hits` append to title `t`, in order. */
  function EdgesTo(idx: Index, t: Title, hits: seq<Hit>): seq<Title>
    decreases |hits|
  {
    if hits == [] then [] else EdgeTo(idx, t, hits[0]) + EdgesTo(idx, t, hits[1..])
  }

  lemma {:induction false} TitlesAppend(a: seq<Hit>, b: seq<Hit>)
    ensures Titles(a + b) == Titles(a) + Titles(b)
    decreases |a|
  {
    if a != [] {
      assert (a + b)[0] == a[0];
      assert (a + b)[1..] == a[1..] + b;
      TitlesAppend(a[1..], b);
      assert Titles(a + b) == [a[0].title] + Titles(a[1..] + b);
    } else {
      assert a + b == b;
    }
  }

  /** A title is listed exactly when some hit carries it. */
  lemma {:induction false} TitlesMember(hits: seq<Hit>, t: Title)
    ensures t in Titles(hits) <==> exists h :: h in hits && h.title == t
    decreases |hits|
  {
    if hits != [] {
      TitlesMember(hits[1..], t);
      assert forall h :: h in hits <==> h == hits[0] || h in hits[1..];
    }
  }

  lemma {:induction false} RecordAppend(idx: Index, g: Graph, a: seq<Hit>, b: seq<Hit>)
    ensures Record(idx, g, a + b) == Record(idx, Record(idx, g, a), b)
    decreases |a|
  {
    if a != [] {
      assert (a + b)[0] == a[0];
      assert (a + b)[1..] == a[1..] + b;
      var g1 := DependentsRecursive(idx, a[0].title, a[0].above, g);
      RecordAppend(idx, g1, a[1..], b);
      assert Record(idx, g, a + b) == Record(idx, g1, a[1..] + b);
    } else {
      assert a + b == b;
    }
  }

  /**
   The traversal splits into a pure part and a graph part: its dependency
   list is the titles of the frontier, and its graph is the one the climbs
   for the frontier's entries produce, in the same order.
   */
  lemma {:induction false} TraversalIsFrontier(idx: Index, barrel: (string, Path) -> Path,
                                               kids: seq<Node>, above: seq<Path>, g: Graph)
    ensures var f := Frontier(idx, barrel, kids, above);
            ChildrenDependencies(idx, barrel, kids, above, g) == (Titles(f), Record(idx, g, f))
    decreases kids
  {
    if kids != [] {
      var c := kids[0];
      var t := Resolve(idx, barrel, c);
      var head := if Truthy(t) then [Hit(t.value, above)]
                  else Frontier(idx, barrel, c.children, [c.filePath] + above);
      var tail := Frontier(idx, barrel, kids[1..], above);
      var here := if Truthy(t) then ([t.value], DependentsRecursive(idx, t.value, above, g))
                  else ChildrenDependencies(idx, barrel, c.children, [c.filePath] + above, g);
      if !Truthy(t) {
        TraversalIsFrontier(idx, barrel, c.children, [c.filePath] + above, g);
      } else {
        assert head[1..] == [];
        assert Titles(head) == [t.value];
        assert Record(idx, g, head) == Record(idx, DependentsRecursive(idx, t.value, above, g), []);
      }
      assert here == (Titles(head), Record(idx, g, head));
      TraversalIsFrontier(idx, barrel, kids[1..], above, here.1);
      TitlesAppend(head, tail);
      RecordAppend(idx, g, head, tail);
    }
  }

  /**
   Siblings compose: walking `a + b` lists what `a` contributes followed by
   what `b` contributes, and `b` is walked on the graph `a` left behind.
   */
  lemma ChildrenConcat(idx: Index, barrel: (string, Path) -> Path,
                        a: seq<Node>, b: seq<Node>, above: seq<Path>, g: Graph)
    ensures var ra := ChildrenDependencies(idx, barrel, a, above, g);
            var rb := ChildrenDependencies(idx, barrel, b, above, ra.1);
            ChildrenDependencies(idx, barrel, a + b, above, g) == (ra.0 + rb.0, rb.1)
  {
    var fa := Frontier(idx, barrel, a, above);
    var fb := Frontier(idx, barrel, b, above);
    TraversalIsFrontier(idx, barrel, a, above, g);
    TraversalIsFrontier(idx, barrel, b, above, Record(idx, g, fa));
    TraversalIsFrontier(idx, barrel, a + b, above, g);
    FrontierAppend(idx, barrel, a, b, above);
    TitlesAppend(fa, fb);
    RecordAppend(idx, g, fa, fb);
  }

  /** The frontier of a list of siblings is the frontiers of its parts, in order. */
  lemma {:induction false} FrontierAppend(idx: Index, barrel: (string, Path) -> Path,
                                          a: seq<Node>, b: seq<Node>, above: seq<Path>)
    ensures Frontier(idx, barrel, a + b, above) == Frontier(idx, barrel, a, above) + Frontier(idx, barrel, b, above)
    decreases a
  {
    if a == [] {
      assert a + b == b;
    } else {
      var c := a[0];
      var t := Resolve(idx, barrel, c);
      var head := if Truthy(t) then [Hit(t.value, above)]
                  else Frontier(idx, barrel, c.children, [c.filePath] + above);
      assert (a + b)[0] == c;
      assert (a + b)[1..] == a[1..] + b;
      FrontierAppend(idx, barrel, a[1..], b, above);
      assert Frontier(idx, barrel, a + b, above) == head + Frontier(idx, barrel, a[1..] + b, above);
      assert Frontier(idx, barrel, a, above) == head + Frontier(idx, barrel, a[1..], above);
    }
  }

  /** The dependency list never depends on the graph the traversal starts from. */
  lemma DependenciesIgnoreGraph(idx: Index, barrel: (string, Path) -> Path, n: Node,
                                above: seq<Path>, g1: Graph, g2: Graph)
    ensures Dependencies(idx, barrel, n, above, g1).0 == Dependencies(idx, barrel, n, above, g2).0
  {
    TraversalIsFrontier(idx, barrel, n.children, [n.filePath] + above, g1);
    TraversalIsFrontier(idx, barrel, n.children, [n.filePath] + above, g2);
  }

  /** Dropping the first sibling shifts every branch's first index down by one. */
  lemma ReachesShift(idx: Index, barrel: (string, Path) -> Path, kids: seq<Node>,
                     above: seq<Path>, p: seq<nat>, h: Hit)
    requires |p| > 0 && p[0] >= 1 && kids != []
    ensures Reaches(idx, barrel, kids, above, p, h)
            <==> Reaches(idx, barrel, kids[1..], above, [p[0] - 1] + p[1..], h)
  {
    var q := [p[0] - 1] + p[1..];
    assert q[1..] == p[1..];
  }

  /** Every frontier entry is reached by some branch; the branch is returned. */
  lemma {:induction false} FrontierSound(idx: Index, barrel: (string, Path) -> Path,
                                         kids: seq<Node>, above: seq<Path>, h: Hit)
    returns (p: seq<nat>)
    requires h in Frontier(idx, barrel, kids, above)
    ensures Reaches(idx, barrel, kids, above, p, h)
    decreases kids
  {
    var c := kids[0];
    var t := Resolve(idx, barrel, c);
    var ca := [c.filePath] + above;
    var head := if Truthy(t) then [Hit(t.value, above)] else Frontier(idx, barrel, c.children, ca);
    var tail := Frontier(idx, barrel, kids[1..], above);
    assert Frontier(idx, barrel, kids, above) == head + tail;
    if h in head {
      if Truthy(t) {
        p := [0];
      } else {
        var q := FrontierSound(idx, barrel, c.children, ca, h);
        p := [0] + q;
        assert p[1..] == q;
      }
    } else {
      var q := FrontierSound(idx, barrel, kids[1..], above, h);
      p := [q[0] + 1] + q[1..];
      assert [p[0] - 1] + p[1..] == q;
      ReachesShift(idx, barrel, kids, above, p, h);
    }
  }

  /** Every hit some branch reaches is on the frontier. */
  lemma {:induction false} FrontierComplete(idx: Index, barrel: (string, Path) -> Path,
                                            kids: seq<Node>, above: seq<Path>, p: seq<nat>, h: Hit)
    requires Reaches(idx, barrel, kids, above, p, h)
    ensures h in Frontier(idx, barrel, kids, above)
    decreases kids
  {
    var c := kids[0];
    var t := Resolve(idx, barrel, c);
    var ca := [c.filePath] + above;
    var head := if Truthy(t) then [Hit(t.value, above)] else Frontier(idx, barrel, c.children, ca);
    var tail := Frontier(idx, barrel, kids[1..], above);
    assert Frontier(idx, barrel, kids, above) == head + tail;
    if p[0] == 0 {
      assert kids[p[0]] == c;
      if |p| == 1 {
        assert head == [h];
      } else {
        assert Reaches(idx, barrel, c.children, ca, p[1..], h);
        FrontierComplete(idx, barrel, c.children, ca, p[1..], h);
      }
      assert h in head;
    } else {
      ReachesShift(idx, barrel, kids, above, p, h);
      FrontierComplete(idx, barrel, kids[1..], above, [p[0] - 1] + p[1..], h);
      assert h in tail;
    }
  }

  /**
   A title is among a node's dependencies exactly when some branch below
   the node leads, through components that resolve to no title, to a child
   that resolves to it.
   */
  lemma DependencyIffReached(idx: Index, barrel: (string, Path) -> Path, n: Node,
                             above: seq<Path>, g: Graph, t: Title)
    ensures t in Dependencies(idx, barrel, n, above, g).0
            <==> exists p: seq<nat>, h: Hit :: Reaches(idx, barrel, n.children, [n.filePath] + above, p, h) && h.title == t
  {
    var ca := [n.filePath] + above;
    var f := Frontier(idx, barrel, n.children, ca);
    TraversalIsFrontier(idx, barrel, n.children, ca, g);
    TitlesMember(f, t);
    assert Dependencies(idx, barrel, n, above, g).0 == Titles(f);
    if t in Titles(f) {
      var h :| h in f && h.title == t;
      var p := FrontierSound(idx, barrel, n.children, ca, h);
      assert Reaches(idx, barrel, n.children, [n.filePath] + above, p, h) && h.title == t;
      assert exists p: seq<nat>, h: Hit :: Reaches(idx, barrel, n.children, [n.filePath] + above, p, h) && h.title == t;
      assert t in Dependencies(idx, barrel, n, above, g).0;
    } else {
      forall p: seq<nat>, h: Hit | Reaches(idx, barrel, n.children, ca, p, h)
        ensures h.title != t
      {
        FrontierComplete(idx, barrel, n.children, ca, p, h);
      }
    }
  }

  /**
   The climbs for `hits` create a node for `t` only when `t` had one or
   some climb for `t` succeeded.
   */
  lemma {:induction false} RecordKeys(idx: Index, g: Graph, hits: seq<Hit>, t: Title)
    ensures t in Record(idx, g, hits) <==> t in g || EdgesTo(idx, t, hits) != []
    decreases |hits|
  {
    if hits != [] {
      var g1 := DependentsRecursive(idx, hits[0].title, hits[0].above, g);
      var e0 := EdgeTo(idx, t, hits[0]);
      var es := EdgesTo(idx, t, hits[1..]);
      var r := Record(idx, g1, hits[1..]);
      assert t in g1 <==> t in g || e0 != [] by {
        ClimbDependents(idx, g, hits[0], t);
      }
      assert t in r <==> t in g1 || es != [] by {
        RecordKeys(idx, g1, hits[1..], t);
      }
      assert Record(idx, g, hits) == r;
      assert EdgesTo(idx, t, hits) == e0 + es;
      assert |e0 + es| == |e0| + |es|;
    }
  }

  /**
   The climbs for `hits` leave the dependencies of `t` alone and append to
   its dependents exactly the edges found for `t`, in order.
   */
  lemma {:induction false} RecordDependents(idx: Index, g: Graph, hits: seq<Hit>, t: Title)
    ensures var node := NodeOf(Record(idx, g, hits), t);
            && node.dependents == NodeOf(g, t).dependents + EdgesTo(idx, t, hits)
            && node.dependencies == NodeOf(g, t).dependencies
    decreases |hits|
  {
    if hits == [] {
      assert NodeOf(g, t).dependents + [] == NodeOf(g, t).dependents;
    } else {
      var g1 := DependentsRecursive(idx, hits[0].title, hits[0].above, g);
      var e0 := EdgeTo(idx, t, hits[0]);
      var es := EdgesTo(idx, t, hits[1..]);
      var r := Record(idx, g1, hits[1..]);
      assert NodeOf(g1, t).dependents == NodeOf(g, t).dependents + e0
             && NodeOf(g1, t).dependencies == NodeOf(g, t).dependencies by {
        ClimbDependents(idx, g, hits[0], t);
      }
      assert NodeOf(r, t).dependents == NodeOf(g1, t).dependents + es
             && NodeOf(r, t).dependencies == NodeOf(g1, t).dependencies by {
        RecordDependents(idx, g1, hits[1..], t);
      }
      assert Record(idx, g, hits) == r && EdgesTo(idx, t, hits) == e0 + es by {
        RecordStep(idx, g, hits, t);
      }
      assert NodeOf(g, t).dependents + e0 + es == NodeOf(g, t).dependents + (e0 + es);
    }
  }

  /** One step of the fold, and of the edge list, for a non-empty list of hits. */
  lemma RecordStep(idx: Index, g: Graph, hits: seq<Hit>, t: Title)
    requires hits != []
    ensures Record(idx, g, hits) == Record(idx, DependentsRecursive(idx, hits[0].title, hits[0].above, g), hits[1..])
    ensures EdgesTo(idx, t, hits) == EdgeTo(idx, t, hits[0]) + EdgesTo(idx, t, hits[1..])
  {
  }

  /** One climb, seen from title `t`: at most one dependent appended, dependencies untouched. */
  lemma ClimbDependents(idx: Index, g: Graph, h: Hit, t: Title)
    ensures var g1 := DependentsRecursive(idx, h.title, h.above, g);
            && (t in g1 <==> t in g || EdgeTo(idx, t, h) != [])
            && NodeOf(g1, t).dependents == NodeOf(g, t).dependents + EdgeTo(idx, t, h)
            && NodeOf(g1, t).dependencies == NodeOf(g, t).dependencies
  {
    ClimbAppends(idx, h.title, h.above, g);
    match NearestDocumented(idx, h.above)
    case None =>
      assert NodeOf(g, t).dependents + [] == NodeOf(g, t).dependents;
    case Some(a) =>
      if h.title != t {
        assert NodeOf(g, t).dependents + [] == NodeOf(g, t).dependents;
      }
  }

  /** The edge found for one hit is among the edges for its title. */
  lemma {:induction false} EdgesToMember(idx: Index, hits: seq<Hit>, h: Hit, a: Title)
    requires h in hits && NearestDocumented(idx, h.above) == Some(a)
    ensures a in EdgesTo(idx, h.title, hits)
    decreases |hits|
  {
    if hits[0] != h {
      EdgesToMember(idx, hits[1..], h, a);
    }
  }

  /**
   The reverse edge: when a branch below `n` reaches a documented child,
   the nearest documented ancestor of that child ends up among the child's
   dependents.
   */
  lemma DependentEdge(idx: Index, barrel: (string, Path) -> Path, n: Node, above: seq<Path>,
                      g: Graph, p: seq<nat>, h: Hit, a: Title)
    requires Reaches(idx, barrel, n.children, [n.filePath] + above, p, h)
    requires NearestDocumented(idx, h.above) == Some(a)
    ensures h.title in Dependencies(idx, barrel, n, above, g).1
    ensures a in Dependencies(idx, barrel, n, above, g).1[h.title].dependents
  {
    var ca := [n.filePath] + above;
    var f := Frontier(idx, barrel, n.children, ca);
    TraversalIsFrontier(idx, barrel, n.children, ca, g);
    FrontierComplete(idx, barrel, n.children, ca, p, h);
    EdgesToMember(idx, f, h, a);
    RecordKeys(idx, g, f, h.title);
    RecordDependents(idx, g, f, h.title);
  }

  /**
   The climb retraces the descent: across wrappers that are not barrel
   re-exports, the nearest documented ancestor of a reached child is the
   nearest documented ancestor the walk started below, since every wrapper
   it passed resolved, by its own path, to no title.
   */
  lemma {:induction false} ClimbMatchesDescent(idx: Index, barrel: (string, Path) -> Path, kids: seq<Node>,
                                               above: seq<Path>, p: seq<nat>, h: Hit)
    requires Reaches(idx, barrel, kids, above, p, h)
    requires WrappersPlain(kids, p)
    ensures NearestDocumented(idx, h.above) == NearestDocumented(idx, above)
    decreases p
  {
    if |p| > 1 {
      var c := kids[p[0]];
      var ca := [c.filePath] + above;
      ClimbMatchesDescent(idx, barrel, c.children, ca, p[1..], h);
      assert ca[1..] == above;
    }
  }

  /**
   A barrel child that resolves to a documented path contributes exactly
   what a plain child at that path would: the same title and the same
   reverse edge.
   */
  lemma BarrelChildLikeDirect(idx: Index, barrel: (string, Path) -> Path, c: Node,
                              rest: seq<Node>, above: seq<Path>, g: Graph)
    requires c.error
    requires Truthy(SearchStory(idx, barrel(c.name, c.filePath)))
    ensures var direct := c.(error := false, filePath := barrel(c.name, c.filePath));
            ChildrenDependencies(idx, barrel, [c] + rest, above, g)
            == ChildrenDependencies(idx, barrel, [direct] + rest, above, g)
  {
    var direct := c.(error := false, filePath := barrel(c.name, c.filePath));
    assert ([c] + rest)[1..] == rest;
    assert ([direct] + rest)[1..] == rest;
  }

  /** The subtree below a documented child is never explored: replacing it changes nothing. */
  lemma DocumentedChildNotExplored(idx: Index, barrel: (string, Path) -> Path, c: Node,
                                   other: seq<Node>, rest: seq<Node>, above: seq<Path>, g: Graph)
    requires Truthy(Resolve(idx, barrel, c))
    ensures ChildrenDependencies(idx, barrel, [c] + rest, above, g)
            == ChildrenDependencies(idx, barrel, [c.(children := other)] + rest, above, g)
  {
    assert ([c] + rest)[1..] == rest;
    assert ([c.(children := other)] + rest)[1..] == rest;
  }

  /** An undocumented wrapper is transparent: it contributes what its own children do. */
  lemma WrapperIsTransparent(idx: Index, barrel: (string, Path) -> Path, w: Node,
                             above: seq<Path>, g: Graph)
    requires !Truthy(Resolve(idx, barrel, w))
    ensures ChildrenDependencies(idx, barrel, [w], above, g)
            == ChildrenDependencies(idx, barrel, w.children, [w.filePath] + above, g)
  {
    var inner := ChildrenDependencies(idx, barrel, w.children, [w.filePath] + above, g);
    assert [w][1..] == [];
    assert inner.0 + [] == inner.0;
  }
}
