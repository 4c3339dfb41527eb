/** `KeyboardDragStrategy` (src/keyboard_drag_strategy.ts, lines 77-205): the
    drag state kept across one drag gesture, the dragged block's local
    connections, the constrained search and the switch between constrained
    and proximity search. The inherited `BlockDragStrategy` is not modelled:
    its proximity candidate and its own candidate comparison are parameters. */
module KeyboardDragStrategy {
  import opened Wrappers
  import opened Directions
  import opened LineCursor
  import opened Compatibility
  import opened Search

  /** What the search reads of the dragged block: `getConnections_(false)`,
      its `nextConnection` and `lastConnectionInStack(true)`. */
  datatype Block = Block(connections: seq<Connection>, nextConnection: Option<Connection>, lastInStack: Option<Connection>)

  /** What the search reads of the workspace: its AST in document order and
      its connection checker. */
  datatype Workspace = Workspace(doc: Document, checker: Checker)

  /** The strategy's fields `lastDirection`, `hasMoved` and `searchNode`
      (an index into the document), and the inherited `startParentConn`. */
  datatype DragState = DragState(
    lastDirection: Option<Direction>,
    hasMoved: bool,
    searchNode: Option<nat>,
    startParentConn: Option<Connection>)

  /** The field initialisers of a fresh strategy. */
  const Fresh: DragState := DragState(None, false, None, None)

  /** The search anchor, when there is one, is a node of the document. */
  predicate AnchorInDocument(s: DragState, doc: Document)
  {
    s.searchNode.Some? ==> s.searchNode.value < |doc|
  }

  predicate IsStatement(c: Connection)
  {
    c.connType == PreviousStatement || c.connType == NextStatement
  }

  /** The statement-connection filter that `getLocalConnections` builds when a
      direction is set; its result is thrown away. */
  function StatementConnections(conns: seq<Connection>): (r: seq<Connection>)
    ensures forall c :: c in r <==> c in conns && IsStatement(c)
    ensures |r| <= |conns|
  {
    if |conns| == 0 then []
    else (if IsStatement(conns[0]) then [conns[0]] else []) + StatementConnections(conns[1..])
  }

  /** `getLocalConnections`: the block's own connections, in order, followed
      by the last connection of its stack when there is one and it is not the
      block's own next connection. The direction does not matter: the filter
      result is discarded. */
  function LocalConnections(lastDirection: Option<Direction>, block: Block): (r: seq<Connection>)
    ensures |block.connections| <= |r| <= |block.connections| + 1
    ensures r[..|block.connections|] == block.connections
    ensures |r| == |block.connections| + 1 <==> block.lastInStack.Some? && block.lastInStack != block.nextConnection
    ensures |r| == |block.connections| + 1 ==> r[|block.connections|] == block.lastInStack.value
  {
    var tail := block.lastInStack;
    if tail.Some? && tail != block.nextConnection then block.connections + [tail.value]
    else block.connections
  }

  /** The direction filter has no effect on the local connections. */
  lemma FilterIsDiscarded(block: Block, d1: Option<Direction>, d2: Option<Direction>)
    ensures LocalConnections(d1, block) == LocalConnections(d2, block)
  {
  }

  /** A value connection of the dragged block stays a local connection under
      any direction, although the filter would have removed it. */
  lemma ValueConnectionsStayLocal(block: Block, d: Direction, k: nat)
    requires k < |block.connections|
    requires !IsStatement(block.connections[k])
    ensures block.connections[k] in LocalConnections(Some(d), block)
    ensures block.connections[k] !in StatementConnections(block.connections)
  {
  }

  /** `startDrag`, anchor seeding only: the anchor becomes the connection node
      of the block's original parent connection. */
  function StartDrag(s: DragState, doc: Document, startParentConn: Option<Connection>): (r: DragState)
    ensures r.startParentConn == startParentConn
    ensures r.lastDirection == s.lastDirection && r.hasMoved == s.hasMoved
    ensures AnchorInDocument(r, doc)
    ensures r.searchNode.Some? ==> startParentConn.Some? && doc[r.searchNode.value] == ConnectionNode(startParentConn.value)
    ensures r.searchNode.None? <==> startParentConn.None? || ConnectionNode(startParentConn.value) !in doc
  {
    var anchor := match startParentConn
      case None => None
      case Some(c) => IndexOfConnection(doc, c);
    s.(searchNode := anchor, startParentConn := startParentConn)
  }

  /** `drag`: without an event nothing changes; with one, the direction is
      recomputed from the event's tilt and the drag has moved. */
  function Drag(s: DragState, e: Option<Tilt>): (r: DragState)
    ensures e.None? ==> r == s
    ensures e.Some? ==> r.hasMoved
    ensures e.Some? ==> (r.lastDirection.Some? <==> IsUnitAxis(e.value))
    ensures e.Some? && r.lastDirection.Some? ==> TiltFromDirection(r.lastDirection) == e.value
    ensures r.searchNode == s.searchNode && r.startParentConn == s.startParentConn
  {
    match e
    case None => s
    case Some(t) => s.(lastDirection := DirectionFromTilt(t), hasMoved := true)
  }

  /** A fresh strategy has no direction and has not moved; starting a drag
      from it anchors at the parent connection exactly when that connection
      is present and has a node in the document. */
  lemma FreshStartDrag(doc: Document, startParentConn: Option<Connection>)
    ensures StartDrag(Fresh, doc, startParentConn).lastDirection.None?
    ensures !StartDrag(Fresh, doc, startParentConn).hasMoved
    ensures StartDrag(Fresh, doc, startParentConn).searchNode.Some?
        <==> startParentConn.Some? && ConnectionNode(startParentConn.value) in doc
  {
  }

  /** What one constrained search step must produce: nothing and no state
      change when there is no parent connection or no anchor; otherwise,
      either the nearest compatible node in the walk direction, with the
      last compatible local connection, distance 0 and the anchor moved
      there, or nothing and no state change when no such node exists. */
  predicate SearchOutcome(s: DragState, ws: Workspace, block: Block, r: Option<Candidate>, s': DragState)
    requires s.lastDirection.Some?
  {
    var locals := LocalConnections(s.lastDirection, block);
    if s.startParentConn.None? || s.searchNode.None? then
      r.None? && s' == s
    else
      var i := s.searchNode.value;
      var o := WalkOrder(s.lastDirection.value);
      if r.None? then
        s' == s && NoCompatibleAhead(ws.checker, locals, ws.doc, i, o)
      else
        && s'.searchNode.Some?
        && s' == s.(searchNode := s'.searchNode)
        && IsNearestCompatible(ws.checker, locals, ws.doc, i, o, s'.searchNode.value)
        && r == CandidateAt(ws.checker, locals, ws.doc[s'.searchNode.value].conn)
  }

  /** At most one outcome meets `SearchOutcome`. */
  lemma OutcomeIsUnique(s: DragState, ws: Workspace, block: Block,
                                          r1: Option<Candidate>, s1: DragState, r2: Option<Candidate>, s2: DragState)
    requires s.lastDirection.Some?
    requires SearchOutcome(s, ws, block, r1, s1)
    requires SearchOutcome(s, ws, block, r2, s2)
    ensures r1 == r2 && s1 == s2
  {
  }

  /** The constrained search as a function of the drag state. */
  function ConstrainedCandidate(s: DragState, ws: Workspace, block: Block): (r: (Option<Candidate>, DragState))
    requires s.lastDirection.Some?
    requires AnchorInDocument(s, ws.doc)
    ensures SearchOutcome(s, ws, block, r.0, r.1)
    ensures AnchorInDocument(r.1, ws.doc)
  {
    if s.startParentConn.None? || s.searchNode.None? then (None, s)
    else
      var locals := LocalConnections(s.lastDirection, block);
      match NearestCompatible(ws.checker, locals, ws.doc, s.searchNode.value, WalkOrder(s.lastDirection.value))
      case None => (None, s)
      case Some(j) => (CandidateAt(ws.checker, locals, ws.doc[j].conn), s.(searchNode := Some(j)))
  }

  /** `getConstrainedConnectionCandidate`: step the cursor from the anchor in
      the walk direction, try every local connection against each node
      reached, stop at the first node where one connects, and move the
      anchor there. */
  method GetConstrainedConnectionCandidate(s: DragState, ws: Workspace, block: Block)
    returns (r: Option<Candidate>, s': DragState)
    requires s.lastDirection.Some?
    requires AnchorInDocument(s, ws.doc)
    ensures SearchOutcome(s, ws, block, r, s')
    ensures (r, s') == ConstrainedCandidate(s, ws, block)
  {
    if s.startParentConn.None? || s.searchNode.None? {
      return None, s;
    }
    var locals := LocalConnections(s.lastDirection, block);
    var doc, cc := ws.doc, ws.checker;
    var anchor := s.searchNode.value;
    var o := WalkOrder(s.lastDirection.value);
    var candidate: Option<Candidate> := None;
    var potential: Option<nat> := Some(anchor);
    while potential.Some? && candidate.None?
      invariant potential.Some? ==> potential.value < |doc|
      invariant potential.Some? && potential.value != anchor ==> Ahead(o, anchor, potential.value)
      invariant candidate.None? && potential.Some? ==>
        forall k :: 0 <= k < |doc| && Ahead(o, anchor, k) && !Ahead(o, potential.value, k) ==> !Compatible(cc, locals, doc, k)
      invariant potential.None? ==> candidate.None? && NoCompatibleAhead(cc, locals, doc, anchor, o)
      invariant candidate.Some? ==>
        && potential.Some?
        && IsNearestCompatible(cc, locals, doc, anchor, o, potential.value)
        && candidate == CandidateAt(cc, locals, doc[potential.value].conn)
      decreases if potential.None? then 0 else if o == Backward then potential.value + 1 else |doc| - potential.value
    {
      potential := Step(doc, potential.value, o);
      // An exhausted cursor has no location, which no checker accepts.
      if potential.Some? {
        candidate := ForEachLocal(cc, locals, doc[potential.value].conn);
      }
    }
    r := candidate;
    if candidate.Some? {
      s' := s.(searchNode := potential);
    } else {
      s' := s;
    }
    var f := ConstrainedCandidate(s, ws, block);
    OutcomeIsUnique(s, ws, block, r, s', f.0, f.1);
  }

  /** `currCandidateIsBetter`: with a direction set, the current candidate is
      never preferred over a new one; otherwise the inherited comparison
      decides. */
  function CurrCandidateIsBetter(s: DragState, curr: Candidate, next: Candidate,
                                 inherited: (Candidate, Candidate) -> bool): (b: bool)
    ensures s.lastDirection.Some? ==> !b
    ensures s.lastDirection.None? ==> b == inherited(curr, next)
  {
    if s.lastDirection.Some? then false else inherited(curr, next)
  }

  /** `getConnectionCandidate`: the constrained search when a direction is
      set, otherwise the inherited proximity candidate with no state change. */
  function GetConnectionCandidate(s: DragState, ws: Workspace, block: Block, proximity: Option<Candidate>)
    : (r: (Option<Candidate>, DragState))
    requires AnchorInDocument(s, ws.doc)
    ensures s.lastDirection.None? ==> r == (proximity, s)
    ensures s.lastDirection.Some? ==> SearchOutcome(s, ws, block, r.0, r.1)
    ensures AnchorInDocument(r.1, ws.doc)
    ensures r.1.lastDirection == s.lastDirection && r.1.hasMoved == s.hasMoved
    ensures r.1.startParentConn == s.startParentConn
  {
    if s.lastDirection.Some? then ConstrainedCandidate(s, ws, block) else (proximity, s)
  }

  /** One `drag` event including the candidate refresh that `super.drag`
      performs: no event returns before anything runs (`None`); otherwise
      the direction is recomputed and `getConnectionCandidate` runs with it,
      giving the refreshed candidate (`Some`) and the new state. */
  function DragStep(s: DragState, ws: Workspace, block: Block, e: Option<Tilt>, proximity: Option<Candidate>)
    : (r: (Option<Option<Candidate>>, DragState))
    requires AnchorInDocument(s, ws.doc)
    ensures e.None? ==> r == (None, s)
    ensures e.Some? ==> r.0.Some? && r.1.hasMoved && AnchorInDocument(r.1, ws.doc)
    ensures e.Some? ==> (r.1.lastDirection.Some? <==> IsUnitAxis(e.value))
    ensures e.Some? && !IsUnitAxis(e.value) ==> r.0 == Some(proximity) && r.1.searchNode == s.searchNode
    ensures e.Some? && IsUnitAxis(e.value) ==>
      SearchOutcome(s.(lastDirection := DirectionFromTilt(e.value), hasMoved := true), ws, block, r.0.value, r.1)
  {
    match e
    case None => (None, s)
    case Some(_) =>
      var moved := Drag(s, e);
      var found := GetConnectionCandidate(moved, ws, block, proximity);
      (Some(found.0), found.1)
  }

  /** A unit-tilt drag event that finds a candidate has searched from the
      anchor held before the event, walking the tilt's direction: the new
      anchor is the nearest compatible node strictly beyond the old one. */
  lemma DragStepSearchesFromOldAnchor(s: DragState, ws: Workspace, block: Block, t: Tilt, proximity: Option<Candidate>)
    requires AnchorInDocument(s, ws.doc)
    requires IsUnitAxis(t)
    requires DragStep(s, ws, block, Some(t), proximity).0 != Some(None)
    ensures s.searchNode.Some? && s.startParentConn.Some?
    ensures DragStep(s, ws, block, Some(t), proximity).1.searchNode.Some?
    ensures IsNearestCompatible(ws.checker, LocalConnections(s.lastDirection, block), ws.doc, s.searchNode.value,
                                WalkOrder(DirectionFromTilt(t).value),
                                DragStep(s, ws, block, Some(t), proximity).1.searchNode.value)
  {
  }
}
