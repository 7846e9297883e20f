/** The keyed configuration tree the event definitions are read from. */
module ConfigTree {

  /** A configuration node: a scalar, a list or a map of named children. */
  datatype Node =
    | Str(s: string)
    | Int(i: int)
    | Lst(items: seq<Node>)
    | Obj(fields: map<string, Node>)

  /** childrenMap(): the named children of a map node; every other node has none. */
  function ChildrenMap(n: Node): map<string, Node>
  {
    if n.Obj? then n.fields else map[]
  }
}
