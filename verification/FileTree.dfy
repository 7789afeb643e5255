/** Directory trees as the walks of the desktop shell and of the pipeline see them. */
module FileTree {
  import opened Wrappers

  type Bytes = seq<bv8>

  type Path = seq<string>

  /** A tree, the entries of a directory in the order it lists them. */
  datatype Node = File(content: Bytes) | Dir(entries: seq<Entry>) | Symlink | Special

  datatype Entry = Entry(name: string, node: Node)

  function Child(entries: seq<Entry>, name: string): Option<Node> {
    if entries == [] then None
    else if entries[0].name == name then Some(entries[0].node)
    else Child(entries[1..], name)
  }

  /** The node at a path below `node`. */
  function At(node: Node, q: Path): Option<Node>
    decreases |q|
  {
    if q == [] then Some(node)
    else if !node.Dir? then None
    else match Child(node.entries, q[0])
      case None => None
      case Some(child) => At(child, q[1..])
  }

  /** Names are unique within every directory. */
  predicate Named(node: Node) {
    node.Dir? ==> NamedEntries(node.entries)
  }

  predicate NamedEntries(entries: seq<Entry>) {
    entries != [] ==>
      Child(entries[1..], entries[0].name).None? && Named(entries[0].node) && NamedEntries(entries[1..])
  }
}
