/**
 Worked examples of the builder on a two-story project: a `Card` story
 whose component renders a `Button` that has its own story, directly,
 through an undocumented wrapper, or through a barrel re-export.
 */
module Scenarios {
  import opened UsageTree
  import opened StoryIndex
  import opened DependencyGraph
  import opened TraversalSpec
  import opened BuildTree

  const CardPath: Path := "/src/Card.tsx"
  const ButtonPath: Path := "/src/Button.tsx"
  const WrapperPath: Path := "/src/Wrapper.tsx"
  const BarrelPath: Path := "/src/index.ts"

  function Stories(): seq<StoryEntry> {
    [Story(CardPath, "Card"), Story(ButtonPath, "Button")]
  }

  /** Component paths are already normalised in these examples. */
  function SameExt(p: Path): Path { p }

  /** The barrel file re-exports `Button` from its real file. */
  function Barrel(name: string, p: Path): Path {
    if p == BarrelPath && name == "Button" then ButtonPath else p
  }

  /** The index the two stories produce. */
  function ExampleIdx(): Index {
    Index([CardPath, ButtonPath], map[CardPath := "Card", ButtonPath := "Button"])
  }

  function ButtonLeaf(): Node { Node("Button", ButtonPath, false, []) }

  /** A parser that returns `card` for the card component and a childless button otherwise. */
  function ParseWith(card: Node): Path -> Node {
    p => if p == CardPath then card else ButtonLeaf()
  }

  /** The sweep over the example index for a project whose card tree is `card`. */
  function Built(card: Node): Graph {
    Sweep(ExampleIdx(), Barrel, ParseWith(card), ExampleIdx().order, map[])
  }

  /** Reading the Card story alone yields an index with the one key. */
  lemma CardIndex()
    ensures BuildIndex([Story(CardPath, "Card")], SameExt) == Index([CardPath], map[CardPath := "Card"])
  {
    var s := [Story(CardPath, "Card")];
    assert s[..0] == [];
    assert BuildIndex(s[..0], SameExt) == Empty();
  }

  /** Reading the two stories yields the example index, keys in insertion order. */
  lemma ExampleIndex()
    ensures BuildIndex(Stories(), SameExt) == ExampleIdx()
  {
    var s := Stories();
    var first := Index([CardPath], map[CardPath := "Card"]);
    assert s[..1] == [Story(CardPath, "Card")];
    CardIndex();
    assert ButtonPath !in first.titles;
    assert BuildIndex(s, SameExt) == Insert(first, ButtonPath, "Button");
  }

  /** The whole builder on the example project is the example sweep. */
  lemma BuiltIsBuildGraph(card: Node)
    ensures BuildGraph(Stories(), SameExt, Barrel, ParseWith(card)) == Built(card)
  {
    ExampleIndex();
  }

  /** The sweep over the example index: Card's root first, then Button's. */
  lemma BuiltUnfolds(card: Node)
    ensures Built(card) == ProcessRoot(ExampleIdx(), Barrel, ParseWith(card), ButtonPath,
                                       ProcessRoot(ExampleIdx(), Barrel, ParseWith(card), CardPath, map[]))
  {
    var idx := ExampleIdx();
    var parse := ParseWith(card);
    var ga := ProcessRoot(idx, Barrel, parse, CardPath, map[]);
    var gb := ProcessRoot(idx, Barrel, parse, ButtonPath, ga);
    assert idx.order[1..] == [ButtonPath];
    assert Sweep(idx, Barrel, parse, idx.order, map[]) == Sweep(idx, Barrel, parse, [ButtonPath], ga);
    assert [ButtonPath][1..] == [];
    assert Sweep(idx, Barrel, parse, [ButtonPath], ga) == Sweep(idx, Barrel, parse, [], gb);
  }

  /** Button renders nothing, so its root only gets an empty dependency list. */
  lemma ButtonStep(card: Node, g: Graph)
    ensures ProcessRoot(ExampleIdx(), Barrel, ParseWith(card), ButtonPath, g)
            == GetRootNode(g, "Button")["Button" := NodeOf(g, "Button").(dependencies := [])]
  {
    assert ButtonPath != CardPath;
    assert ParseWith(card)(ButtonPath) == ButtonLeaf();
  }

  /** Walking a Card that renders Button directly, from a graph holding only Card. */
  lemma DirectWalk()
    ensures Dependencies(ExampleIdx(), Barrel, Node("Card", CardPath, false, [ButtonLeaf()]),
                         [], map["Card" := Fresh()])
            == (["Button"], map["Card" := Fresh(), "Button" := GraphNode([], ["Card"])])
  {
    var idx := ExampleIdx();
    var g1 := map["Card" := Fresh()];
    var g2 := map["Card" := Fresh(), "Button" := GraphNode([], ["Card"])];
    assert Resolve(idx, Barrel, ButtonLeaf()) == Some("Button");
    assert SearchStory(idx, CardPath) == Some("Card");
    assert "Button" !in g1;
    assert Fresh().dependents + ["Card"] == ["Card"];
    assert AddDependent(g1, "Button", "Card") == g2;
    assert DependentsRecursive(idx, "Button", [CardPath], g1) == g2;
    assert [ButtonLeaf()][1..] == [];
    assert ChildrenDependencies(idx, Barrel, [], [CardPath], g2) == ([], g2);
    assert ChildrenDependencies(idx, Barrel, [ButtonLeaf()], [CardPath], g1) == (["Button"] + [], g2);
    assert [CardPath] + [] == [CardPath];
    assert ["Button"] + [] == ["Button"];
  }

  /** Card's root step when Card renders Button directly. */
  lemma DirectCardStep()
    ensures var card := Node("Card", CardPath, false, [ButtonLeaf()]);
            ProcessRoot(ExampleIdx(), Barrel, ParseWith(card), CardPath, map[])
            == map["Card" := GraphNode(["Button"], []), "Button" := GraphNode([], ["Card"])]
  {
    var idx := ExampleIdx();
    var card := Node("Card", CardPath, false, [ButtonLeaf()]);
    var g1 := map["Card" := Fresh()];
    var g2 := map["Card" := Fresh(), "Button" := GraphNode([], ["Card"])];
    assert idx.titles[CardPath] == "Card";
    assert ParseWith(card)(CardPath) == card;
    assert GetRootNode(map[], "Card") == g1;
    DirectWalk();
    assert ProcessRoot(idx, Barrel, ParseWith(card), CardPath, map[])
           == g2["Card" := g2["Card"].(dependencies := ["Button"])];
  }

  /** Card renders Button directly: Card depends on Button and Button is used by Card. */
  lemma DirectChild()
    ensures var g := Built(Node("Card", CardPath, false, [ButtonLeaf()]));
            && g["Card"].dependencies == ["Button"] && g["Card"].dependents == []
            && g["Button"].dependencies == [] && g["Button"].dependents == ["Card"]
  {
    var card := Node("Card", CardPath, false, [ButtonLeaf()]);
    var g3 := map["Card" := GraphNode(["Button"], []), "Button" := GraphNode([], ["Card"])];
    BuiltUnfolds(card);
    DirectCardStep();
    ButtonStep(card, g3);
  }

  /** Two card trees whose walks agree on every graph give the same built graph. */
  lemma SameWalkSameGraph(c1: Node, c2: Node)
    requires forall g :: Dependencies(ExampleIdx(), Barrel, c1, [], g) == Dependencies(ExampleIdx(), Barrel, c2, [], g)
    ensures Built(c1) == Built(c2)
  {
    var idx := ExampleIdx();
    BuiltUnfolds(c1);
    BuiltUnfolds(c2);
    assert ParseWith(c1)(CardPath) == c1 && ParseWith(c2)(CardPath) == c2;
    var ga := ProcessRoot(idx, Barrel, ParseWith(c1), CardPath, map[]);
    assert ga == ProcessRoot(idx, Barrel, ParseWith(c2), CardPath, map[]);
    ButtonStep(c1, ga);
    ButtonStep(c2, ga);
  }

  /** The climb from Button passes the undocumented wrapper and stops at Card. */
  lemma WrapperWalk(g: Graph)
    ensures var wrapper := Node("Wrapper", WrapperPath, false, [ButtonLeaf()]);
            Dependencies(ExampleIdx(), Barrel, Node("Card", CardPath, false, [wrapper]), [], g)
            == Dependencies(ExampleIdx(), Barrel, Node("Card", CardPath, false, [ButtonLeaf()]), [], g)
  {
    var idx := ExampleIdx();
    var wrapper := Node("Wrapper", WrapperPath, false, [ButtonLeaf()]);
    assert SearchStory(idx, WrapperPath) == None;
    WrapperIsTransparent(idx, Barrel, wrapper, [CardPath], g);
    assert [ButtonLeaf()][1..] == [];
    assert DependentsRecursive(idx, "Button", [WrapperPath, CardPath], g)
           == DependentsRecursive(idx, "Button", [CardPath], g);
    assert [CardPath] + [] == [CardPath];
    assert [WrapperPath] + [CardPath] == [WrapperPath, CardPath];
    assert ChildrenDependencies(idx, Barrel, [ButtonLeaf()], [WrapperPath, CardPath], g)
           == ChildrenDependencies(idx, Barrel, [ButtonLeaf()], [CardPath], g);
  }

  /** An undocumented wrapper between Card and Button changes nothing. */
  lemma WrapperChild()
    ensures var wrapper := Node("Wrapper", WrapperPath, false, [ButtonLeaf()]);
            Built(Node("Card", CardPath, false, [wrapper])) == Built(Node("Card", CardPath, false, [ButtonLeaf()]))
  {
    var wrapper := Node("Wrapper", WrapperPath, false, [ButtonLeaf()]);
    forall g ensures Dependencies(ExampleIdx(), Barrel, Node("Card", CardPath, false, [wrapper]), [], g)
                     == Dependencies(ExampleIdx(), Barrel, Node("Card", CardPath, false, [ButtonLeaf()]), [], g) {
      WrapperWalk(g);
    }
    SameWalkSameGraph(Node("Card", CardPath, false, [wrapper]), Node("Card", CardPath, false, [ButtonLeaf()]));
  }

  /** Card imports Button through a barrel file: the same graph as a direct import. */
  lemma BarrelChild()
    ensures Built(Node("Card", CardPath, false, [Node("Button", BarrelPath, true, [])]))
            == Built(Node("Card", CardPath, false, [ButtonLeaf()]))
  {
    var idx := ExampleIdx();
    var reexport := Node("Button", BarrelPath, true, []);
    assert Barrel(reexport.name, reexport.filePath) == ButtonPath;
    assert reexport.(error := false, filePath := ButtonPath) == ButtonLeaf();
    forall g ensures Dependencies(idx, Barrel, Node("Card", CardPath, false, [reexport]), [], g)
                     == Dependencies(idx, Barrel, Node("Card", CardPath, false, [ButtonLeaf()]), [], g) {
      BarrelChildLikeDirect(idx, Barrel, reexport, [], [CardPath], g);
      assert [reexport] + [] == [reexport];
      assert [ButtonLeaf()] + [] == [ButtonLeaf()];
    }
    SameWalkSameGraph(Node("Card", CardPath, false, [reexport]), Node("Card", CardPath, false, [ButtonLeaf()]));
  }

  /** A root that renders nothing has no dependencies. */
  lemma NoChildren()
    ensures Built(Node("Card", CardPath, false, []))["Card"].dependencies == []
  {
    var idx := ExampleIdx();
    var card := Node("Card", CardPath, false, []);
    assert ParseWith(card)(CardPath) == card;
    assert idx.order[0] == CardPath && idx.order[1] == ButtonPath;
    SweepLastRootWins(idx, Barrel, ParseWith(card), idx.order, map[], 0);
  }
}
