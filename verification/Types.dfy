/** The shapes the hierarchy store speaks: nested trees at the edge, flat rows underneath. */
module Types {

  datatype Option<+T> = None | Some(value: T)

  datatype Result<+T, +E> = Ok(value: T) | Err(error: E)

  datatype NodeType = ManagementGroup | Subscription | ResourceGroup

  /** A hierarchy as a value: the body of a post, and what a fetch answers with. */
  datatype Tree = Tree(id: int, typ: NodeType, children: seq<Tree>)

  /** One node of a flattened payload. `depth` counts from the posted root. */
  datatype PayloadNode = PayloadNode(id: int, typ: NodeType, parent: Option<int>, depth: nat)

  /** One node of a subtree read. `depth` counts from the node that was asked for. */
  datatype SubtreeRow = SubtreeRow(id: int, typ: NodeType, parent: Option<int>, depth: int)

  datatype AncestorRow = AncestorRow(ancestor: int, depth: int)

  datatype NodeRow = NodeRow(id: int, typ: NodeType, parent: Option<int>)

  datatype ClosureRow = ClosureRow(ancestor: int, descendant: int, depth: int)

  /** What the `nodes` table keeps for one id. */
  datatype NodeRec = NodeRec(typ: NodeType, parent: Option<int>)

  /** The primary key of the closure table. */
  datatype Key = Key(ancestor: int, descendant: int)

  type Nodes = map<int, NodeRec>

  /** The two tables. A map per table: each primary key holds at most one row. */
  datatype Tables = Tables(nodes: Nodes, closure: map<Key, int>)
}
