/** The snake: a heading and a body of cells, head first. */
module Snakes {
  import opened Wrappers
  import opened Geometry
  import opened Lists

  /** The head's value occurs again somewhere after the head. */
  ghost predicate HeadRecurs(body: seq<Point>)
    requires |body| >= 1
  {
    exists i :: 0 < i < |body| && body[i] == body[0]
  }

  class Snake {
    var direction: Point
    var body: seq<Point>

    /** The body is never empty and the heading is one of the four units. */
    ghost predicate Valid()
      reads this
    {
      |body| >= 1 && IsUnit(direction)
    }

    /** A one-segment snake heading right. */
    constructor (head: Point)
      ensures Valid()
      ensures direction == Right && body == [head]
    {
      direction := Point(1, 0);
      body := [head];
    }

    /** The snake bit itself: the first node holding the head's value is
        not the last one. Duplicates among the other segments alone do not
        count. */
    function HeadBodyColision(): (hit: bool)
      reads this
      requires |body| >= 1
      ensures hit <==> HeadRecurs(body)
      ensures |body| == 1 ==> !hit
    {
      var first := Find(body, body[0]);
      var last := FindLast(body, body[0]);
      first != last
    }

    /** Duplicates the tail: one more segment, the old ones untouched and
        the same cells occupied. */
    method GrowBody()
      requires Valid()
      modifies this`body
      ensures Valid()
      ensures body == old(body) + [old(body)[|old(body)| - 1]]
      ensures forall p :: p in body <==> p in old(body)
    {
      body := body + [body[|body| - 1]];
    }

    /** One step: the new head is the old head plus the heading and the
        tail is dropped, so the length stays the same. */
    method Move()
      requires Valid()
      modifies this`body
      ensures Valid()
      ensures body == [Add(old(body)[0], direction)] + old(body)[..|old(body)| - 1]
      ensures |body| == |old(body)|
    {
      var head := body[0];
      body := [Add(head, direction)] + body;
      body := body[..|body| - 1];
    }

    method ToTop()
      requires Valid()
      modifies this`direction
      ensures Valid()
      ensures direction == Turned(old(direction), Up)
    {
      if direction.y != 1 {
        direction := Point(0, -1);
      }
    }

    method ToBot()
      requires Valid()
      modifies this`direction
      ensures Valid()
      ensures direction == Turned(old(direction), Down)
    {
      if direction.y != -1 {
        direction := Point(0, 1);
      }
    }

    method ToLeft()
      requires Valid()
      modifies this`direction
      ensures Valid()
      ensures direction == Turned(old(direction), Left)
    {
      if direction.x != 1 {
        direction := Point(-1, 0);
      }
    }

    method ToRight()
      requires Valid()
      modifies this`direction
      ensures Valid()
      ensures direction == Turned(old(direction), Right)
    {
      if direction.x != -1 {
        direction := Point(1, 0);
      }
    }
  }
}
