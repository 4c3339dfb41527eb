/** Testing the dragged block's local connections against one document
    connection (src/keyboard_drag_strategy.ts, lines 161-171). The connection
    checker belongs to the workspace and is not modelled: it is a parameter. */
module Compatibility {
  import opened Wrappers
  import opened LineCursor

  /** `connectionChecker.canConnect(a, b, isDragging, distance)`. */
  type Checker = (Connection, Connection, bool, int) -> bool

  /** The search always asks as a drag. */
  const DragConnection: bool := true

  /** The search tolerance; large enough that distance never matters. */
  const SearchTolerance: int := 2000

  /** `canConnect(local, target, true, 2000)`. */
  predicate Accepts(cc: Checker, local: Connection, target: Connection)
  {
    cc(local, target, DragConnection, SearchTolerance)
  }

  /** Some local connection may connect to `target`. */
  predicate AnyAccepts(cc: Checker, locals: seq<Connection>, target: Connection)
  {
    exists m :: 0 <= m < |locals| && Accepts(cc, locals[m], target)
  }

  /** `local` is the compatible local connection that comes last in
      enumeration order. */
  predicate IsLastAccepted(cc: Checker, locals: seq<Connection>, target: Connection, local: Connection)
  {
    exists k :: 0 <= k < |locals| && locals[k] == local && Accepts(cc, locals[k], target)
      && forall m :: k < m < |locals| ==> !Accepts(cc, locals[m], target)
  }

  /** The local connection that `localConns.forEach` leaves behind: the loop
      never breaks, so each compatible connection overwrites the previous
      one and the last compatible one wins. */
  function LastAccepted(cc: Checker, locals: seq<Connection>, target: Connection): (r: Option<Connection>)
    ensures r.Some? <==> AnyAccepts(cc, locals, target)
    ensures r.Some? ==> IsLastAccepted(cc, locals, target, r.value)
    decreases |locals|
  {
    if |locals| == 0 then None
    else if Accepts(cc, locals[|locals| - 1], target) then Some(locals[|locals| - 1])
    else LastAccepted(cc, locals[..|locals| - 1], target)
  }

  /** Conversely, a compatible local connection followed only by
      incompatible ones is the one chosen, even when earlier local
      connections are compatible too. */
  lemma LastCompatibleWins(cc: Checker, locals: seq<Connection>, target: Connection, k: nat)
    requires k < |locals| && Accepts(cc, locals[k], target)
    requires forall m :: k < m < |locals| ==> !Accepts(cc, locals[m], target)
    ensures LastAccepted(cc, locals, target) == Some(locals[k])
  {
  }

  /** `ConnectionCandidate`: a local connection, the document connection it
      would join, and their distance. */
  datatype Candidate = Candidate(local: Connection, neighbour: Connection, distance: int)

  /** The candidate the constrained search builds at `target`, if any. */
  function CandidateAt(cc: Checker, locals: seq<Connection>, target: Connection): Option<Candidate>
  {
    match LastAccepted(cc, locals, target)
    case None => None
    case Some(l) => Some(Candidate(l, target, 0))
  }

  /** The `forEach` loop itself: every local connection is tried in order and
      each compatible one overwrites the candidate. */
  method ForEachLocal(cc: Checker, locals: seq<Connection>, target: Connection) returns (c: Option<Candidate>)
    ensures c.Some? <==> AnyAccepts(cc, locals, target)
    ensures c.Some? ==> c.value.neighbour == target && c.value.distance == 0
    ensures c.Some? ==> IsLastAccepted(cc, locals, target, c.value.local)
    ensures c == CandidateAt(cc, locals, target)
  {
    c := None;
    var k := 0;
    while k < |locals|
      invariant 0 <= k <= |locals|
      invariant c == CandidateAt(cc, locals[..k], target)
    {
      assert locals[..k + 1][..k] == locals[..k];
      if Accepts(cc, locals[k], target) {
        c := Some(Candidate(locals[k], target, 0));
      }
      k := k + 1;
    }
    assert locals[..k] == locals;
  }
}
