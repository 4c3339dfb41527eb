# Keyboard-constrained connection search

A Dafny model of `KeyboardDragStrategy` from a Blockly keyboard-navigation plugin. When a block is dragged with the arrow keys (or with a pointer whose tilt points one way), this strategy decides which connection in the workspace the block should snap to next. It walks the workspace's AST in document order from a remembered anchor node, backwards for Up and Left and forwards for Down and Right. At each connection node it tries every local connection of the dragged block against that node with the workspace's connection checker. It stops at the first node where one of them connects.

Modules, one per component:

- `Wrappers` (`wrappers.dfy`): `Option`, standing for `null`.
- `Directions` (`directions.dfy`): the `Direction` enum and the tilt conversions.
- `LineCursor` (`line_cursor.dfy`): connections, AST nodes, and the document as a sequence of nodes. It also defines the cursor's previous/next steps over connection nodes.
- `Compatibility` (`compatibility.dfy`): the connection checker as a parameter, and the `forEach` over local connections.
- `Search` (`search.dfy`): the walk order of a direction and the nearest compatible node, defined as a reference function.
- `KeyboardDragStrategy` (`keyboard_drag_strategy.dfy`): the drag state, local connections, `startDrag`, `drag`, and the constrained search as a function and as the source's loop. It also has the candidate comparison and the mode switch.
- `DragProperties` (`drag_properties.dfy`): properties that relate several calls.

The search anchor `searchNode` is an index into the document. The workspace's connection checker is a function parameter `(local, target, isDragging, tolerance) -> bool`. It is always called with `true` and `2000`.

Three details of the code shape the model:

- Among several local connections compatible with the same node, the **last** in enumeration order wins, because `forEach` (src/keyboard_drag_strategy.ts:161-171) never breaks: every compatible connection overwrites the one before it.
- `currCandidateIsBetter` (src/keyboard_drag_strategy.ts:183-193) returns `false` whenever a direction is set, so a newly found candidate always replaces the current one.
- The statement-connection filter in `getLocalConnections` is computed and its result is thrown away. The local connections therefore do not depend on the direction (`FilterIsDiscarded`).

## Model

| member | source | states |
|---|---|---|
| Directions.TiltFromDirection | src/keyboard_drag_strategy.ts:25-42 | no direction gives the zero tilt; each direction gives a unit tilt on its own axis, with Up and Left pointing negative |
| Directions.DirectionFromTilt | src/keyboard_drag_strategy.ts:44-62 | (0,-1), (0,1), (-1,0) and (1,0) give Up, Down, Left and Right, each if and only if; every other tilt, including zero and diagonals, gives no direction |
| Directions.TiltRoundTrip | src/keyboard_drag_strategy.ts:25-62 | direction to tilt and back is the identity, including no direction through (0,0) |
| Directions.DirectionRoundTrip | src/keyboard_drag_strategy.ts:25-62 | tilt to direction and back is the identity exactly on unit axis tilts and the zero tilt |
| LineCursor.PreviousConnection | src/keyboard_drag_strategy.ts:147-150 | the result is the nearest connection node strictly before the node, or none when no earlier node is a connection node |
| LineCursor.NextConnection | src/keyboard_drag_strategy.ts:155-158 | the result is the nearest connection node strictly after the node, or none when no later node is a connection node |
| LineCursor.IndexOfConnection | src/keyboard_drag_strategy.ts:90 | finds the first document node standing for the connection, and finds none exactly when that node is absent |
| Compatibility.LastAccepted | src/keyboard_drag_strategy.ts:161-171 | a local connection is chosen iff some local connection passes the checker; the chosen one passes it and no later one does |
| Compatibility.LastCompatibleWins | src/keyboard_drag_strategy.ts:161-171 | a compatible local connection followed only by incompatible ones is the one chosen, even when earlier ones are compatible |
| Compatibility.ForEachLocal | src/keyboard_drag_strategy.ts:161-171 | the overwriting loop yields a candidate iff some local connection is compatible; that candidate holds the last compatible local, the target, and distance 0 |
| Search.WalkOrder | src/keyboard_drag_strategy.ts:143-159 | Up and Left walk backwards, and Down and Right walk forwards, each if and only if |
| Search.Step | src/keyboard_drag_strategy.ts:141-159 | one cursor step reaches the nearest connection node strictly in the walk direction, or none when there is no such node |
| Search.NearestCompatible | src/keyboard_drag_strategy.ts:141-172 | the walk stops at the nearest compatible connection node strictly beyond the anchor; the anchor itself is never tested; none means no node ahead is compatible |
| Search.NearestIsUnique | src/keyboard_drag_strategy.ts:141-172 | the nearest compatible node is unique and rules out exhaustion |
| KeyboardDragStrategy.StatementConnections | src/keyboard_drag_strategy.ts:113-117 | the discarded filter keeps exactly the previous- and next-statement connections |
| KeyboardDragStrategy.LocalConnections | src/keyboard_drag_strategy.ts:110-123 | the block's own connections come first, unchanged; the stack's last connection is appended iff it exists and is not the block's next connection; nothing else is added |
| KeyboardDragStrategy.FilterIsDiscarded | src/keyboard_drag_strategy.ts:113-117 | the local connections are the same under every direction and under none |
| KeyboardDragStrategy.ValueConnectionsStayLocal | src/keyboard_drag_strategy.ts:111-122 | a value connection stays a local connection under a direction, although the filter would have removed it |
| KeyboardDragStrategy.StartDrag | src/keyboard_drag_strategy.ts:84-91 | the anchor becomes the document node of the original parent connection; there is no anchor when that connection is absent; the direction and moved flag are kept |
| KeyboardDragStrategy.Drag | src/keyboard_drag_strategy.ts:93-97 | outside the inherited candidate refresh: no event changes nothing; an event marks the drag as moved and sets a direction iff its tilt is a unit axis vector; that direction converts back to the same tilt |
| KeyboardDragStrategy.FreshStartDrag | src/keyboard_drag_strategy.ts:78-91 | a fresh strategy has no direction and has not moved; starting a drag from it gives an anchor exactly when the parent connection is present and has a node in the document |
| KeyboardDragStrategy.DragStep | src/keyboard_drag_strategy.ts:93-100 | no event runs no search and changes nothing; a unit tilt runs the constrained search from the old anchor with the new direction; any other tilt takes the proximity candidate; every event marks the drag as moved |
| KeyboardDragStrategy.DragStepSearchesFromOldAnchor | src/keyboard_drag_strategy.ts:93-181 | after a unit-tilt drag event that finds a candidate, the new anchor is the nearest compatible node strictly beyond the anchor held before the event, in the tilt's walk direction |
| KeyboardDragStrategy.OutcomeIsUnique | src/keyboard_drag_strategy.ts:125-181 | at most one candidate and new state meet the search's outcome description |
| KeyboardDragStrategy.ConstrainedCandidate | src/keyboard_drag_strategy.ts:125-181 | no parent connection or no anchor gives nothing and no state change; otherwise the candidate is found at the nearest compatible node ahead, with the last compatible local and distance 0, and the anchor moves there; exhaustion gives nothing and leaves the state alone |
| KeyboardDragStrategy.GetConstrainedConnectionCandidate | src/keyboard_drag_strategy.ts:125-181 | the source's cursor-stepping loop meets the same outcome description and agrees with the functional search |
| KeyboardDragStrategy.CurrCandidateIsBetter | src/keyboard_drag_strategy.ts:183-193 | with a direction set, the current candidate is never preferred; otherwise the inherited comparison decides |
| KeyboardDragStrategy.GetConnectionCandidate | src/keyboard_drag_strategy.ts:195-204 | constrained search exactly when a direction is set; otherwise the proximity candidate with no state change |
| DragProperties.SameWalkSameSearch | src/keyboard_drag_strategy.ts:143-159 | Left searches exactly like Up and Right like Down: same candidate, same new anchor |
| DragProperties.ExhaustionIsStable | src/keyboard_drag_strategy.ts:141-180 | an exhausted walk keeps the state, so the next search resumes from the old anchor and is exhausted again |
| DragProperties.AnchorAdvances | src/keyboard_drag_strategy.ts:175-179 | after a success the anchor has moved strictly in the walk direction onto a connection node, and nothing else changed |
| DragProperties.ReverseStepReturns | src/keyboard_drag_strategy.ts:141-179 | after a successful step, a search in the opposite walk direction comes back to the old anchor when that anchor is compatible |
| DragProperties.AllCompatibleStepsToNeighbour | src/keyboard_drag_strategy.ts:141-179 | when every connection node is compatible, each step moves to the very next connection node, and fails only at the end of the document |
| DragProperties.NoConnectionNodesNoCandidate | src/keyboard_drag_strategy.ts:141-172 | a document without connection nodes never yields a constrained candidate |
| DragProperties.DragSelectsMode | src/keyboard_drag_strategy.ts:93-204 | after a drag event, constrained search and "never prefer the current candidate" hold exactly for unit axis tilts; other tilts defer to the inherited strategy |
| DragProperties.ChainScenario | src/keyboard_drag_strategy.ts:125-181 | in a chain A, B, C where only B is compatible, Down from A pairs the block with B and moves the anchor to B; a second Down finds nothing and stays at B |

## Left out

- The inherited `super.startDrag` call, `moveDuringDrag`, pixel coordinates, `delta`, and the commented-out relocation code are left out. These are rendering and framework lifecycle work.
- `super.drag(newLoc)` also moves the block on screen, which is left out. Its candidate refresh is modelled: it reaches the overridden `getConnectionCandidate` with the direction just set, so a drag event with a unit tilt runs the constrained search and can move `searchNode`. `DragStep` is `Drag` followed by `GetConnectionCandidate`. `Drag` alone models only the lines outside `super.drag`. How the base class then uses `currCandidateIsBetter` to keep or replace its preview is foreign code and is left out.
- The document and the checker are fixed for the whole drag, and the anchor is a position in that document. The source keeps `searchNode` as an `ASTNode` object.
- `BlockDragStrategy`'s proximity search and its own `currCandidateIsBetter` are foreign code. The model takes them as parameters: the proximity candidate as a value, the comparison as a function.
- The connection checker's rules are not modelled. It is an uninterpreted function parameter. A cursor that has run out has no location, and the model treats that as never accepted.
- `LineCursor`'s tree traversal is not modelled. The document is the sequence of AST nodes in the order that traversal visits them, and a cursor step is "nearest connection node before or after".
- The search loop's no-direction branch is left out. `getConstrainedConnectionCandidate` is only reached with a direction set, so the search requires one. Without a direction the source loop would never advance.
- Connection and node identity (`!==`) is value equality of `Connection` and `AstNode`. Ids are assumed unique within a workspace.
- KeyboardDragStrategy.StartDrag: a parent connection with no node in the document gives no anchor. The source would still create a detached node; traversing from a detached node is outside this model.
- Directions.DirectionFromTilt: tilt components are reals, so a JavaScript `NaN` tilt is not represented. It would behave like any other out-of-range value and give no direction.
- Drop and cancel are left out. They belong to the inherited strategy and contain no logic in this file.
