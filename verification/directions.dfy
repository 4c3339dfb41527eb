/** The four arrow directions of a keyboard drag and their conversion to and
    from a pointer tilt (src/keyboard_drag_strategy.ts, lines 18-62). */
module Directions {
  import opened Wrappers

  /** `Direction` enum: Up = 1, Down = 2, Left = 3, Right = 4. Every member is
      truthy, so an unset direction is modelled by `None`. */
  datatype Direction = Up | Down | Left | Right

  /** The two tilt components a `PointerEvent` carries. They are JavaScript
      numbers, so they are modelled as reals. */
  datatype Tilt = Tilt(x: real, y: real)

  /** A tilt that lies on one axis and has magnitude one. */
  predicate IsUnitAxis(t: Tilt)
  {
    (t.x == 0.0 && (t.y == -1.0 || t.y == 1.0)) || (t.y == 0.0 && (t.x == -1.0 || t.x == 1.0))
  }

  /** `getTiltFromDirection`: the unit tilt pointing in `dir`, and the zero
      tilt when no direction is given. */
  function TiltFromDirection(dir: Option<Direction>): (t: Tilt)
    ensures dir.None? <==> t == Tilt(0.0, 0.0)
    ensures dir.Some? ==> IsUnitAxis(t)
    ensures dir == Some(Up) || dir == Some(Down) <==> t.x == 0.0 && t.y != 0.0
    ensures dir == Some(Left) || dir == Some(Right) <==> t.y == 0.0 && t.x != 0.0
    ensures dir == Some(Up) || dir == Some(Left) <==> t.x + t.y < 0.0
  {
    match dir
    case None => Tilt(0.0, 0.0)
    case Some(Up) => Tilt(0.0, -1.0)
    case Some(Down) => Tilt(0.0, 1.0)
    case Some(Left) => Tilt(-1.0, 0.0)
    case Some(Right) => Tilt(1.0, 0.0)
  }

  /** `getDirectionFromTilt`: the y axis is consulted when x is zero, the x
      axis when y is zero; everything else gives no direction. */
  function DirectionFromTilt(t: Tilt): (d: Option<Direction>)
    ensures d == Some(Up) <==> t.x == 0.0 && t.y == -1.0
    ensures d == Some(Down) <==> t.x == 0.0 && t.y == 1.0
    ensures d == Some(Left) <==> t.x == -1.0 && t.y == 0.0
    ensures d == Some(Right) <==> t.x == 1.0 && t.y == 0.0
    ensures d.None? <==> !IsUnitAxis(t)
  {
    if t.x == 0.0 then
      if t.y == -1.0 then Some(Up)
      else if t.y == 1.0 then Some(Down)
      else None
    else if t.y == 0.0 then
      if t.x == -1.0 then Some(Left)
      else if t.x == 1.0 then Some(Right)
      else None
    else None
  }

  /** Converting a direction to a tilt and back is the identity, including
      the absent direction, which travels through the zero tilt. */
  lemma TiltRoundTrip(dir: Option<Direction>)
    ensures DirectionFromTilt(TiltFromDirection(dir)) == dir
  {
  }

  /** Converting a tilt to a direction and back is the identity exactly on
      the unit axis tilts; every other tilt comes back as zero. */
  lemma DirectionRoundTrip(t: Tilt)
    ensures TiltFromDirection(DirectionFromTilt(t)) == t <==> IsUnitAxis(t) || t == Tilt(0.0, 0.0)
  {
  }
}
