/** Properties that relate several calls of the keyboard drag strategy:
    direction folding, resuming after an exhausted walk, walking back after
    a step, stepping through a fully compatible document, and the switch
    between constrained and proximity search. */
module DragProperties {
  import opened Wrappers
  import opened Directions
  import opened LineCursor
  import opened Compatibility
  import opened Search
  import opened KeyboardDragStrategy

  /** Two directions that walk the same way give the same candidate and the
      same new anchor: Left searches exactly like Up, Right like Down. */
  lemma SameWalkSameSearch(s: DragState, ws: Workspace, block: Block, d1: Direction, d2: Direction)
    requires AnchorInDocument(s, ws.doc)
    requires WalkOrder(d1) == WalkOrder(d2)
    ensures ConstrainedCandidate(s.(lastDirection := Some(d1)), ws, block).0
         == ConstrainedCandidate(s.(lastDirection := Some(d2)), ws, block).0
    ensures ConstrainedCandidate(s.(lastDirection := Some(d1)), ws, block).1.searchNode
         == ConstrainedCandidate(s.(lastDirection := Some(d2)), ws, block).1.searchNode
  {
  }

  /** An exhausted walk leaves the state as it was, so the next search in the
      same direction starts from the same anchor and is exhausted again. */
  lemma ExhaustionIsStable(s: DragState, ws: Workspace, block: Block)
    requires s.lastDirection.Some?
    requires AnchorInDocument(s, ws.doc)
    requires ConstrainedCandidate(s, ws, block).0.None?
    ensures ConstrainedCandidate(s, ws, block).1 == s
    ensures ConstrainedCandidate(ConstrainedCandidate(s, ws, block).1, ws, block) == (None, s)
  {
  }

  /** The anchor moves strictly in the walk direction and lands on a
      connection node; nothing else in the state changes. */
  lemma AnchorAdvances(s: DragState, ws: Workspace, block: Block)
    requires s.lastDirection.Some?
    requires AnchorInDocument(s, ws.doc)
    requires ConstrainedCandidate(s, ws, block).0.Some?
    ensures s.searchNode.Some?
    ensures ConstrainedCandidate(s, ws, block).1.searchNode.Some?
    ensures Ahead(WalkOrder(s.lastDirection.value), s.searchNode.value, ConstrainedCandidate(s, ws, block).1.searchNode.value)
    ensures IsConnectionType(ws.doc[ConstrainedCandidate(s, ws, block).1.searchNode.value])
    ensures ConstrainedCandidate(s, ws, block).1 == s.(searchNode := ConstrainedCandidate(s, ws, block).1.searchNode)
  {
  }

  /** Switching to the opposite walk after a successful step resumes from
      the new anchor and comes straight back to the old one, when the old
      anchor is itself a compatible node (as every anchor found by an
      earlier search is). */
  lemma ReverseStepReturns(s: DragState, ws: Workspace, block: Block, back: Direction)
    requires s.lastDirection.Some? && s.searchNode.Some?
    requires AnchorInDocument(s, ws.doc)
    requires Compatible(ws.checker, LocalConnections(s.lastDirection, block), ws.doc, s.searchNode.value)
    requires WalkOrder(back) != WalkOrder(s.lastDirection.value)
    requires ConstrainedCandidate(s, ws, block).0.Some?
    ensures ConstrainedCandidate(ConstrainedCandidate(s, ws, block).1.(lastDirection := Some(back)), ws, block).1.searchNode
         == s.searchNode
  {
  }

  /** When every connection node of the document is compatible, each search
      step moves the anchor to the very next connection node in the walk
      direction, and fails only when there is none. */
  lemma AllCompatibleStepsToNeighbour(s: DragState, ws: Workspace, block: Block)
    requires s.lastDirection.Some? && s.searchNode.Some? && s.startParentConn.Some?
    requires AnchorInDocument(s, ws.doc)
    requires forall k :: 0 <= k < |ws.doc| && IsConnectionType(ws.doc[k]) ==>
               Compatible(ws.checker, LocalConnections(s.lastDirection, block), ws.doc, k)
    ensures ConstrainedCandidate(s, ws, block).1.searchNode
         == (match Step(ws.doc, s.searchNode.value, WalkOrder(s.lastDirection.value))
             case None => s.searchNode
             case Some(j) => Some(j))
    ensures ConstrainedCandidate(s, ws, block).0.None?
        <==> Step(ws.doc, s.searchNode.value, WalkOrder(s.lastDirection.value)).None?
  {
  }

  /** A document without connection nodes never yields a constrained
      candidate, in any direction and from any anchor. */
  lemma NoConnectionNodesNoCandidate(s: DragState, ws: Workspace, block: Block)
    requires s.lastDirection.Some?
    requires AnchorInDocument(s, ws.doc)
    requires forall k :: 0 <= k < |ws.doc| ==> !IsConnectionType(ws.doc[k])
    ensures ConstrainedCandidate(s, ws, block) == (None, s)
  {
  }

  /** After a drag event, constrained search is chosen exactly when the
      event's tilt is a unit axis vector, and then the current candidate is
      never preferred; any other tilt hands both decisions to the inherited
      strategy. */
  lemma DragSelectsMode(s: DragState, ws: Workspace, block: Block, t: Tilt, proximity: Option<Candidate>,
                        curr: Candidate, next: Candidate, inherited: (Candidate, Candidate) -> bool)
    requires AnchorInDocument(s, ws.doc)
    ensures IsUnitAxis(t) ==> !CurrCandidateIsBetter(Drag(s, Some(t)), curr, next, inherited)
    ensures IsUnitAxis(t) ==> GetConnectionCandidate(Drag(s, Some(t)), ws, block, proximity)
                              == ConstrainedCandidate(Drag(s, Some(t)), ws, block)
    ensures !IsUnitAxis(t) ==> CurrCandidateIsBetter(Drag(s, Some(t)), curr, next, inherited) == inherited(curr, next)
    ensures !IsUnitAxis(t) ==> GetConnectionCandidate(Drag(s, Some(t)), ws, block, proximity)
                               == (proximity, Drag(s, Some(t)))
  {
  }

  /** A three-node chain A, B, C, all connection nodes, where the checker
      accepts only B. */
  const NodeA: Connection := Connection(1, NextStatement)
  const NodeB: Connection := Connection(2, NextStatement)
  const NodeC: Connection := Connection(3, NextStatement)
  const Moved: Connection := Connection(4, PreviousStatement)

  function ChainWorkspace(): Workspace
  {
    Workspace([ConnectionNode(NodeA), ConnectionNode(NodeB), ConnectionNode(NodeC)],
              (l: Connection, t: Connection, dragging: bool, tolerance: int) => t == NodeB)
  }

  /** Starting at A and walking Down, the first step pairs the moved block
      with B and moves the anchor to B; the second finds nothing (C is
      incompatible) and keeps the anchor at B. */
  lemma ChainScenario()
    ensures var ws := ChainWorkspace();
            var block := Block([Moved], None, None);
            var s := DragState(Some(Down), true, Some(0), Some(NodeA));
            var first := ConstrainedCandidate(s, ws, block);
            && first.0 == Some(Candidate(Moved, NodeB, 0))
            && first.1.searchNode == Some(1)
            && ConstrainedCandidate(first.1, ws, block) == (None, first.1)
  {
  }
}
