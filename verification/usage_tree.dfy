/**
 Shared vocabulary of the dependency-graph builder: paths, titles, the
 optional value a map lookup returns, and the usage tree the external parser
 produces for one component.
 */
module UsageTree {

  /** An absolute file path, as the parser and the story index spell it. */
  type Path = string

  /** A story title, the key of the dependency graph. */
  type Title = string

  /** The result of a lookup that may find nothing (`undefined` in the source). */
  datatype Option<+T> = None | Some(value: T)

  /**
   One node of a component's usage tree: the component's name, the file it
   was found in, whether that file failed to resolve directly (a re-export
   through a barrel file), and the components it renders, in order.

   The source also keeps a back-reference to the parent node. The model does
   not store it: a traversal carries the file paths of the node's ancestors,
   nearest first, which is all the upward climb ever reads.
   */
  datatype Node = Node(name: string, filePath: Path, error: bool, children: seq<Node>)
}
