/** Grid coordinates, the four headings of the snake and the rule that
    forbids turning back on itself. */
module Geometry {

  /** A cell of the grid. Equality is field by field, as the source's
      `IEquatable<Point>` implementation compares x and y. */
  datatype Point = Point(x: int, y: int)

  /** Component-wise sum: the cell one step from `p` along `d`. */
  function Add(p: Point, d: Point): (r: Point)
    ensures r != p <==> d != Point(0, 0)
  {
    Point(p.x + d.x, p.y + d.y)
  }

  // The four headings; rows grow downwards, so "up" decreases y.
  const Up := Point(0, -1)
  const Down := Point(0, 1)
  const Left := Point(-1, 0)
  const Right := Point(1, 0)

  predicate IsUnit(d: Point)
  {
    d == Up || d == Down || d == Left || d == Right
  }

  function Opposite(d: Point): Point
  {
    Point(-d.x, -d.y)
  }

  /** The anti-reversal rule: asking for `want` while heading `d` is
      ignored exactly when `want` points straight back. */
  function Turned(d: Point, want: Point): Point
  {
    if d == Opposite(want) then d else want
  }

  /** Cells with `0 <= x < side` and `0 <= y < side`. */
  predicate InGrid(p: Point, side: int)
  {
    0 <= p.x < side && 0 <= p.y < side
  }

  /** Stepping back along the opposite vector undoes a step. */
  lemma AddOppositeCancels(p: Point, d: Point)
    ensures Add(Add(p, d), Opposite(d)) == p
  {
  }

  /** One step along a heading moves to a neighbouring cell. */
  lemma StepIsNeighbour(p: Point, d: Point)
    requires IsUnit(d)
    ensures var q := Add(p, d);
      (q.x == p.x && (q.y == p.y + 1 || q.y == p.y - 1)) ||
      (q.y == p.y && (q.x == p.x + 1 || q.x == p.x - 1))
  {
  }

  /** Turning keeps the heading one of the four unit vectors. */
  lemma TurnedIsUnit(d: Point, want: Point)
    requires IsUnit(d) && IsUnit(want)
    ensures IsUnit(Turned(d, want))
  {
  }

  /** Asking twice for the same heading is the same as asking once. */
  lemma TurnedIdempotent(d: Point, want: Point)
    requires IsUnit(want)
    ensures Turned(Turned(d, want), want) == Turned(d, want)
  {
  }

  /** A turn is refused only when it would reverse the heading; every
      other request is granted. */
  lemma TurnedRefusesOnlyReversal(d: Point, want: Point)
    requires IsUnit(d) && IsUnit(want)
    ensures Turned(d, want) == d <==> (d == want || d == Opposite(want))
    ensures d != Opposite(want) ==> Turned(d, want) == want
  {
  }
}
