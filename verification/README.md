# Storybook dependency graph builder — a Dafny model

This project models the graph builder of `storybook-addon-dependencies`
(`dist/buildTree.cjs`). The builder reads every story file and builds a story
index. The index maps a documented component's source path to the title of
its story. For every indexed component, the builder then parses the
component's usage tree (the components it renders, recursively) and fills a
graph with one node per title:

- `dependencies` are the nearest documented components that the component
  renders. The walk looks through undocumented wrapper components, and it
  resolves barrel-file re-exports (children the parser flags with `error`).
- `dependents` are the titles of the nearest documented ancestors, recorded
  by an upward climb from each documented component the walk finds.

The modules follow the program's structure:

- `UsageTree` (`usage_tree.dfy`): paths, titles, `Option`, and the parsed
  usage tree `Node`. The parser's `parent` back-reference is replaced by the
  list of ancestor file paths (nearest first), which the walk passes down.
- `StoryIndex` (`story_index.dfy`): `storiesComponents`, `searchStory`,
  last-write-wins insertion, and the loop that fills the index. JavaScript
  objects iterate over keys in first-insertion order, so the index keeps that
  order next to the map.
- `DependencyGraph` (`dependency_graph.dfy`): the `tree` object,
  `getRootNode`, `dependentsRecursive` and `dependenciesRecursive`. The
  graph is passed through the functions as an argument and a result.
- `TraversalSpec` (`traversal_spec.dfy`): an independent account of the
  walk, with no graph in it. A "frontier" is the list of documented children
  reached through undocumented ones, and `Reaches` describes each of them by
  a branch of child indices. The lemmas prove that the walk's dependency
  list is the frontier's titles and that its graph effect is one climb per
  frontier entry, in order.
- `BuildTree` (`build_tree.dfy`): the top-level sweep over the index and the
  whole builder.
- `Scenarios` (`scenarios.dfy`): a two-story project (`Card` renders
  `Button`) worked through to its final graph: a direct child, a child behind
  an undocumented wrapper, a child behind a barrel re-export, and a root
  with no children.

The external helpers are parameters of the model:

- `ext` is `getComponentPathExtension`.
- `barrel` is `getBarrelFileComponentPath`.
- `parse` is `SaplingParser.parse`.

Each is an arbitrary total function, so every property holds for every
behaviour of these helpers.

`!!title` is JavaScript truthiness. A story whose title is the empty string
is therefore indexed, and its path is processed as a root. Both traversals
treat it as undocumented, however (`StoryIndex.Truthy`).

Two behaviours of the code shape the model:

- `SaplingParser.parse` (line 97) is not inside a `try`, so a parse failure
  ends the whole sweep. The model treats the parser as total.
- Dependencies and dependents are lists that keep duplicates and traversal
  order, and so are the model's.

## Model

| member | source | states |
|---|---|---|
| StoryIndex.Empty | dist/buildTree.cjs:41 | the index starts well formed, and every lookup in it misses |
| StoryIndex.SearchStory | dist/buildTree.cjs:43-45 | a lookup finds a title exactly when the path is a key, and the title it finds is one of the index's values |
| StoryIndex.Insert | dist/buildTree.cjs:53 | after `index[p] = t`, `p` maps to `t` and every other lookup is unchanged; a new key goes last in iteration order and an existing key keeps its place; insertion keeps the index well formed |
| StoryIndex.LastWriteWins | dist/buildTree.cjs:53 | two insertions under one path leave only the second title; other lookups and the key order are as after the first insertion |
| StoryIndex.BuildIndex | dist/buildTree.cjs:47-58 | the index built from the story entries is well formed: no key is listed twice, and the listed keys are exactly the mapped paths |
| StoryIndex.BuildIndexLastWins | dist/buildTree.cjs:47-58 | a path maps to the title of the last readable story whose normalised component path is that path; with no such story the path is absent; unreadable entries are skipped |
| StoryIndex.BuildIndexKeys | dist/buildTree.cjs:47-58 | a path is a key of the built index exactly when some readable story's normalised component path is that path |
| StoryIndex.BuildIndexOrder | dist/buildTree.cjs:47-58 | keys are listed in the order of their first readable story: if a story for `p` comes before the first story for `q`, then `p` precedes `q` in the order the sweep at line 94 visits |
| StoryIndex.Truthy | dist/buildTree.cjs:67 | no contract of its own: it is the truthiness test `!!title` (and `!parentTitle` at line 79), under which a missing entry and an empty title both count as undocumented; its meaning in the walk is carried by `DependencyGraph.NearestDocumentedNone` and `TraversalSpec.DependencyIffReached` |
| DependencyGraph.GetRootNode | dist/buildTree.cjs:87-92 | the title gets a node: a new title gets an empty one, and an existing node is returned untouched, as is every other node |
| DependencyGraph.GetRootNodeIdempotent | dist/buildTree.cjs:87-92 | materialising a title twice gives the same graph as materialising it once |
| DependencyGraph.AddDependent | dist/buildTree.cjs:82-83 | exactly one dependent is appended to the title's list; its dependencies and every other node are unchanged |
| DependencyGraph.NearestDocumentedNone | dist/buildTree.cjs:77-81 | the climb finds no target exactly when no ancestor's own path is documented (by a direct lookup, without barrel resolution) |
| DependencyGraph.NearestDocumentedIsFirst | dist/buildTree.cjs:77-81 | when the ancestor at position k is documented and none nearer is, the climb's target is that ancestor's title |
| DependencyGraph.DependentsRecursive | dist/buildTree.cjs:76-77 | a node with no parent leaves the graph unchanged |
| DependencyGraph.ClimbAppends | dist/buildTree.cjs:76-84 | when some ancestor is documented, the climb appends the nearest one's title to the node's dependents and changes nothing else; otherwise it changes nothing |
| DependencyGraph.Resolve | dist/buildTree.cjs:64-66 | no contract of its own: a child flagged `error` is looked up at the barrel resolver's path, any other child at its own path; `TraversalSpec.BarrelChildLikeDirect` states what this means for the walk |
| DependencyGraph.ChildrenDependencies | dist/buildTree.cjs:63-73 | every title in the flattened list is a non-empty title of the index |
| DependencyGraph.ChildrenGrow | dist/buildTree.cjs:63-84 | the walk only gains nodes for non-empty index titles, with no dependencies; it keeps every existing node's dependencies, and it only appends to dependents lists |
| DependencyGraph.Dependencies | dist/buildTree.cjs:60-62 | a node with no children gives the empty list and leaves the graph alone; every listed title is a non-empty title of the index |
| DependencyGraph.DependenciesGrow | dist/buildTree.cjs:60-62 | the walk from a node changes the graph only in the ways the walk over its children may |
| TraversalSpec.ChildrenConcat | dist/buildTree.cjs:63-73 | the walk over two runs of siblings lists the first run's titles followed by the second's, duplicates kept, and the second run is walked on the graph the first left |
| TraversalSpec.TraversalIsFrontier | dist/buildTree.cjs:60-84 | the walk's list is the titles of the frontier in traversal order, duplicates kept, and its graph is the result of one upward climb per frontier entry, in the same order |
| TraversalSpec.FrontierSound | dist/buildTree.cjs:63-73 | every frontier entry is reached by a branch of children that all resolve to no title, ending at a child that resolves to a title |
| TraversalSpec.FrontierComplete | dist/buildTree.cjs:63-73 | every entry such a branch reaches is on the frontier |
| TraversalSpec.DependencyIffReached | dist/buildTree.cjs:60-73 | a title is among a node's dependencies if and only if some branch below the node reaches a child that resolves to it |
| TraversalSpec.DependenciesIgnoreGraph | dist/buildTree.cjs:60-73 | the dependency list of a walk is the same whatever graph the walk starts from |
| TraversalSpec.RecordKeys | dist/buildTree.cjs:82-92 | the climbs create a node for a title only when it had one already or some climb for that title found a documented ancestor |
| TraversalSpec.RecordDependents | dist/buildTree.cjs:76-84 | the climbs append to a title's dependents exactly the ancestors found for that title, in order, and never change its dependencies |
| TraversalSpec.ClimbDependents | dist/buildTree.cjs:76-84 | one climb appends at most one dependent to a title, and only to the title it climbs for |
| TraversalSpec.DependentEdge | dist/buildTree.cjs:67-70 | when a branch reaches a documented child, the child's nearest documented ancestor is among the child's dependents after the walk |
| TraversalSpec.ClimbMatchesDescent | dist/buildTree.cjs:76-84 | across wrappers that are not barrel re-exports, the climb from a reached child stops at the same ancestor as a climb from where the walk started: the walk passed only wrappers that resolve to no title |
| TraversalSpec.BarrelChildLikeDirect | dist/buildTree.cjs:64-66 | a flagged child that resolves to a documented path contributes what a plain child at that path would: the same titles and the same graph |
| TraversalSpec.DocumentedChildNotExplored | dist/buildTree.cjs:67-70 | the subtree below a documented child is never explored: replacing it changes neither the list nor the graph |
| TraversalSpec.WrapperIsTransparent | dist/buildTree.cjs:71 | an undocumented child contributes exactly what its own children contribute, with itself as their nearest ancestor |
| BuildTree.ProcessRoot | dist/buildTree.cjs:94-97 | the root's title has a node whose dependencies are the walk of the parsed tree, the same list a walk from an empty graph gives |
| BuildTree.ProcessRootFrame | dist/buildTree.cjs:94-97 | an iteration keeps all earlier nodes and only appends to their dependents; new nodes are index titles; no title other than the root's gets new dependencies, and a node created on the way has none |
| BuildTree.Sweep | dist/buildTree.cjs:94-98 | no contract of its own: the loop over the index's keys in order; what it promises is stated by `BuildTree.SweepGrows`, `BuildTree.SweepLastRootWins` and `BuildTree.SweepKeepsEdges` |
| BuildTree.SweepGrows | dist/buildTree.cjs:94-98 | after the sweep, every processed path's title has a node, every new node is an index title, and dependents lists have only grown |
| BuildTree.BuildGraph | dist/buildTree.cjs:94-98 | the built graph has a node for exactly the titles in the index |
| BuildTree.SweepKeepsOtherTitles | dist/buildTree.cjs:94-98 | a title carried by no processed path keeps its dependencies, or has none if the sweep created its node |
| BuildTree.SweepLastRootWins | dist/buildTree.cjs:94-98 | a title's dependencies after the sweep are the walk of the last path processed for that title |
| BuildTree.FirstRootWins | dist/buildTree.cjs:94-98 | the first processed path's dependencies survive when no later path carries its title |
| BuildTree.LaterRootWins | dist/buildTree.cjs:94-98 | the same for a later path, from the rest of the sweep |
| BuildTree.RootRecordsEdge | dist/buildTree.cjs:94-97 | each reverse edge that one root's walk finds is in the graph after that root |
| BuildTree.SweepKeepsEdges | dist/buildTree.cjs:76-98 | every reverse edge that any root's walk finds is in the final graph; later roots never remove it |
| BuildTree.RootIsDependent | dist/buildTree.cjs:60-98 | dependents invert dependencies: if the parser gives a root its own path and the root's title is not empty, then every title its walk reaches through wrappers that are not barrel re-exports lists the root's title among its dependents at the end of the sweep |
| BuildTree.BuildGraphLastRootWins | dist/buildTree.cjs:94-98 | in the built graph, a title's dependencies are the walk of the last indexed path that carries it |
| Scenarios.ExampleIndex | dist/buildTree.cjs:47-58 | two stories give an index with both paths, in reading order |
| Scenarios.DirectChild | dist/buildTree.cjs:60-98 | Card rendering Button gives Card the dependency Button and Button the dependent Card |
| Scenarios.WrapperChild | dist/buildTree.cjs:71 | an undocumented wrapper between Card and Button leaves the built graph unchanged |
| Scenarios.BarrelChild | dist/buildTree.cjs:64-66 | Button imported through a barrel file gives the same built graph as a direct import |
| Scenarios.NoChildren | dist/buildTree.cjs:61-62 | a root that renders nothing ends with no dependencies |

## Left out

- Finding the story files (lines 23-39): globbing, the `STORYBOOK_STORIES_PATH` environment variable and path resolution are filesystem discovery. The model starts from the list of story entries.
- Reading and transpiling a story and extracting its metadata (lines 49-52): this is file I/O plus helpers whose code is not part of this model. Each story is a ready-made `Story(componentPath, title)` entry. A failure is an `Unreadable` entry, which is skipped.
- The error logging (lines 54-57): this is console output only. The skip it leads to is modelled.
- `SaplingParser.parse` (lines 10, 97): an external parser, modelled as the arbitrary total function `parse`. Its failures are not modelled, because the code does not catch them.
- `getComponentPathExtension` and `getBarrelFileComponentPath`: their code is not part of this model, so they are arbitrary total functions. An `undefined` result from the barrel resolver is not modelled.
- `editGetDependenciesTree(tree)` (line 100): this writes the output file.
- The async wrapper and the dynamic `import` (lines 9-10): module plumbing.
- JavaScript object details of `storiesComponents` and `tree`: the model does not cover keys inherited from the prototype (such as `constructor`), or integer-like keys that are iterated before the others. Component paths are absolute and titles are story names, so neither case arises in practice.
- The shape of the parser's tree: the model assumes the tree is finite and acyclic, which holds by construction of the `Node` datatype.
- DependentsRecursive: its own contract states only the no-parent case. The full behaviour of the climb is the lemma `ClimbAppends`, kept apart so that proofs that only mention a climb do not carry its whole specification.
- ChildrenDependencies: its own contract states only which titles it lists. What it may do to the graph is the lemma `ChildrenGrow`, and the split into a pure frontier is `TraversalIsFrontier`.
