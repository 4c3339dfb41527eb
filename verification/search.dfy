/** The directional walk of the constrained search: which way a direction
    walks the document, and the nearest document connection ahead of an
    anchor that some local connection accepts
    (src/keyboard_drag_strategy.ts, lines 141-172). */
module Search {
  import opened Wrappers
  import opened Directions
  import opened LineCursor
  import opened Compatibility

  /** The two ways of walking document order. */
  datatype Order = Backward | Forward

  /** Up and Left walk backwards, Down and Right forwards: the horizontal
      directions fold into vertical document order. */
  function WalkOrder(d: Direction): (o: Order)
    ensures o == Backward <==> d == Up || d == Left
    ensures o == Forward <==> d == Down || d == Right
  {
    match d
    case Up => Backward
    case Left => Backward
    case Down => Forward
    case Right => Forward
  }

  /** Index `k` lies strictly beyond `i` when walking in order `o`. */
  predicate Ahead(o: Order, i: nat, k: nat)
  {
    if o == Backward then k < i else i < k
  }

  /** Index `k` lies strictly between `i` and `j` in order `o`. */
  predicate Between(o: Order, i: nat, k: nat, j: nat)
  {
    Ahead(o, i, k) && Ahead(o, k, j)
  }

  /** One cursor step from `i` in order `o`. */
  function Step(doc: Document, i: nat, o: Order): (r: Option<nat>)
    requires i < |doc|
    ensures r.Some? ==> r.value < |doc| && Ahead(o, i, r.value) && IsConnectionType(doc[r.value])
    ensures r.Some? ==> forall k :: 0 <= k < |doc| && Between(o, i, k, r.value) ==> !IsConnectionType(doc[k])
    ensures r.None? ==> forall k :: 0 <= k < |doc| && Ahead(o, i, k) ==> !IsConnectionType(doc[k])
  {
    if o == Backward then PreviousConnection(doc, i) else NextConnection(doc, i)
  }

  /** The node at `k` is a connection node that some local connection may
      connect to. */
  predicate Compatible(cc: Checker, locals: seq<Connection>, doc: Document, k: nat)
    requires k < |doc|
  {
    IsConnectionType(doc[k]) && AnyAccepts(cc, locals, doc[k].conn)
  }

  /** `j` is the nearest compatible node strictly beyond `i` in order `o`. */
  predicate IsNearestCompatible(cc: Checker, locals: seq<Connection>, doc: Document, i: nat, o: Order, j: nat)
  {
    && j < |doc|
    && Ahead(o, i, j)
    && Compatible(cc, locals, doc, j)
    && forall k :: 0 <= k < |doc| && Between(o, i, k, j) ==> !Compatible(cc, locals, doc, k)
  }

  /** No node strictly beyond `i` in order `o` is compatible. */
  predicate NoCompatibleAhead(cc: Checker, locals: seq<Connection>, doc: Document, i: nat, o: Order)
  {
    forall k :: 0 <= k < |doc| && Ahead(o, i, k) ==> !Compatible(cc, locals, doc, k)
  }

  /** Walking from `i` in order `o`, the first connection node at which some
      local connection passes the checker; the anchor itself is never tested
      because the cursor steps before the first test. */
  function NearestCompatible(cc: Checker, locals: seq<Connection>, doc: Document, i: nat, o: Order): (r: Option<nat>)
    requires i < |doc|
    ensures r.Some? ==> IsNearestCompatible(cc, locals, doc, i, o, r.value)
    ensures r.None? ==> NoCompatibleAhead(cc, locals, doc, i, o)
    decreases if o == Backward then i else |doc| - i
  {
    match Step(doc, i, o)
    case None => None
    case Some(j) =>
      if LastAccepted(cc, locals, doc[j].conn).Some? then Some(j)
      else NearestCompatible(cc, locals, doc, j, o)
  }

  /** The nearest compatible node is unique, and it excludes exhaustion. */
  lemma NearestIsUnique(cc: Checker, locals: seq<Connection>, doc: Document, i: nat, o: Order, j1: nat, j2: nat)
    requires IsNearestCompatible(cc, locals, doc, i, o, j1)
    ensures IsNearestCompatible(cc, locals, doc, i, o, j2) ==> j1 == j2
    ensures !NoCompatibleAhead(cc, locals, doc, i, o)
  {
  }
}
