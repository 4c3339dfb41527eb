/** The document seen by the search: the workspace's AST nodes in document
    order, and the two cursor steps that skip to the previous or next
    connection node. The traversal itself (`LineCursor`) is not part of this
    model; only its result, nearest-in-order stepping, is. */
module LineCursor {
  import opened Wrappers

  /** Blockly's connection type constants. */
  datatype ConnectionType = InputValue | OutputValue | NextStatement | PreviousStatement

  /** A connection, identified by `id`; two connections are the same object
      exactly when they are equal values. */
  datatype Connection = Connection(id: nat, connType: ConnectionType)

  /** The kinds of AST node that do not stand for a connection. */
  datatype OtherNodeType = FieldNode | BlockNode | StackNode | WorkspaceNode

  /** An AST node: either a connection node, whose location is a connection,
      or some other node the search walks past. */
  datatype AstNode = ConnectionNode(conn: Connection) | OtherNode(nodeType: OtherNodeType)

  /** `ASTNode.isConnectionType(node.getType())`. */
  predicate IsConnectionType(node: AstNode)
  {
    node.ConnectionNode?
  }

  type Document = seq<AstNode>

  /** `getPreviousNode(doc[i], isConnectionType)`: the nearest connection node
      strictly before `i`, or `None` when the document runs out. */
  function PreviousConnection(doc: Document, i: nat): (r: Option<nat>)
    requires i < |doc|
    ensures r.Some? ==> r.value < i && IsConnectionType(doc[r.value])
    ensures r.Some? ==> forall k :: r.value < k < i ==> !IsConnectionType(doc[k])
    ensures r.None? ==> forall k :: 0 <= k < i ==> !IsConnectionType(doc[k])
    decreases i
  {
    if i == 0 then None
    else if IsConnectionType(doc[i - 1]) then Some(i - 1)
    else PreviousConnection(doc, i - 1)
  }

  /** `getNextNode(doc[i], isConnectionType)`: the nearest connection node
      strictly after `i`, or `None` when the document runs out. */
  function NextConnection(doc: Document, i: nat): (r: Option<nat>)
    requires i < |doc|
    ensures r.Some? ==> i < r.value < |doc| && IsConnectionType(doc[r.value])
    ensures r.Some? ==> forall k :: i < k < r.value ==> !IsConnectionType(doc[k])
    ensures r.None? ==> forall k :: i < k < |doc| ==> !IsConnectionType(doc[k])
    decreases |doc| - i
  {
    if i + 1 == |doc| then None
    else if IsConnectionType(doc[i + 1]) then Some(i + 1)
    else NextConnection(doc, i + 1)
  }

  /** The first index of the connection node for `c`, which is where
      `ASTNode.createConnectionNode(c)` sits in document order. */
  function IndexOfConnection(doc: Document, c: Connection): (r: Option<nat>)
    ensures r.Some? ==> r.value < |doc| && doc[r.value] == ConnectionNode(c)
    ensures r.Some? ==> forall k :: 0 <= k < r.value ==> doc[k] != ConnectionNode(c)
    ensures r.None? <==> ConnectionNode(c) !in doc
  {
    if |doc| == 0 then None
    else if doc[0] == ConnectionNode(c) then Some(0)
    else match IndexOfConnection(doc[1..], c)
      case None => None
      case Some(k) => Some(k + 1)
  }
}
