/** The game loop's single step, and the start of a game. */
module Game {
  import opened Wrappers
  import opened Geometry
  import opened Snakes
  import opened Fields

  /** The arrow keys that steer the snake; other keys have no effect and
      are read as no key at all. */
  datatype Key = UpArrow | DownArrow | LeftArrow | RightArrow

  /** The heading each arrow asks for. */
  function Heading(key: Key): (d: Point)
    ensures IsUnit(d)
    ensures key == UpArrow ==> d.y < 0
    ensures key == DownArrow ==> d.y > 0
    ensures key == LeftArrow ==> d.x < 0
    ensures key == RightArrow ==> d.x > 0
  {
    match key
    case UpArrow => Up
    case DownArrow => Down
    case LeftArrow => Left
    case RightArrow => Right
  }

  /** The body the field evaluates and draws in a tick: the current body,
      with its tail duplicated when the fruit lies under it. */
  ghost function Fed(body: seq<Point>, fruit: Point): seq<Point>
    requires |body| >= 1
  {
    if fruit in body then body + [body[|body| - 1]] else body
  }

  /** Starts a game as the program does: a one-cell snake at (1, 1) heading
      right, on a `side` by `side` grid (the program passes 30), with the
      first fruit at candidate `k` of the `side * side - 1` free cells. */
  method NewGame(side: nat, k: nat) returns (field: Field)
    requires 2 <= side && k < side * side - 1
    ensures fresh(field) && fresh(field.snake)
    ensures field.Valid() && field.side == side
    ensures field.snake.body == [Point(1, 1)] && field.snake.direction == Right
    ensures k < |FreeCells(side, [Point(1, 1)])| && field.fruit == FreeCells(side, [Point(1, 1)])[k]
    ensures field.fruit != Point(1, 1)
    ensures Shows(field.matrix, side, [Point(1, 1)], field.fruit)
  {
    var point := Point(1, 1);
    var snake := new Snake(point);
    FreeCellsCountOneCell(side, snake.body, point);
    field := new Field(snake, side, k);
  }

  /** One tick of the loop: at most one key turns the snake, the field is
      evaluated against the body as it stands (before the head advances),
      and only then, if the game is not lost, does the snake move. On loss
      the state is left as it was after the turn. */
  method Tick(field: Field, key: Option<Key>, k: nat) returns (lost: bool)
    requires field.Valid()
    requires field.fruit in field.snake.body && !Lost(field.side, field.snake.body) ==>
      k < |FreeCells(field.side, field.snake.body)|
    modifies field`fruit, field`matrix, field.snake
    ensures field.Valid()
    ensures field.snake.direction ==
      if key.Some? then Turned(old(field.snake.direction), Heading(key.value))
      else old(field.snake.direction)
    ensures lost <==> old(Lost(field.side, field.snake.body))
    ensures lost ==>
      field.snake.body == old(field.snake.body) && field.fruit == old(field.fruit) &&
      field.matrix == old(field.matrix)
    ensures !lost ==>
      var seen := Fed(old(field.snake.body), old(field.fruit));
      field.fruit !in seen &&
      Shows(field.matrix, field.side, seen, field.fruit) &&
      field.snake.body == [Add(seen[0], field.snake.direction)] + seen[..|seen| - 1]
    ensures !lost && old(field.fruit in field.snake.body) ==>
      field.fruit == FreeCells(field.side, old(field.snake.body))[k]
    ensures !lost && old(field.fruit !in field.snake.body) ==> field.fruit == old(field.fruit)
  {
    var snake := field.snake;
    match key {
      case None =>
      case Some(UpArrow) => snake.ToTop();
      case Some(DownArrow) => snake.ToBot();
      case Some(LeftArrow) => snake.ToLeft();
      case Some(RightArrow) => snake.ToRight();
    }
    lost := field.EvalField(k);
    if !lost {
      snake.Move();
    }
  }

  /** A fruit placed right ahead of a one-cell snake is eaten one tick
      after the head reaches it: the first tick moves the head onto the
      fruit, the second sees the fruit under the body, duplicates the tail
      (the fruit's cell itself) and only then moves on. */
  method EatenOneTickLate(field: Field, k: nat)
    requires field.Valid() && |field.snake.body| == 1
    requires InGrid(field.snake.body[0], field.side)
    requires field.fruit == Add(field.snake.body[0], field.snake.direction)
    requires InGrid(field.fruit, field.side)
    requires k < field.side * field.side - 1
    modifies field`fruit, field`matrix, field.snake
    ensures field.Valid()
    ensures field.snake.direction == old(field.snake.direction)
    ensures field.snake.body == [Add(old(field.fruit), field.snake.direction), old(field.fruit)]
    ensures k < |FreeCells(field.side, [old(field.fruit)])| && field.fruit == FreeCells(field.side, [old(field.fruit)])[k]
  {
    var snake := field.snake;
    ghost var fruit, head, d := field.fruit, snake.body[0], snake.direction;
    assert !HeadRecurs([head]);
    assert !Lost(field.side, [head]);
    assert fruit != head;
    var lost := Tick(field, None, 0);
    assert !lost;
    assert Fed([head], fruit) == [head];
    assert snake.body == [fruit] && field.fruit == fruit;
    FreeCellsCountOneCell(field.side, snake.body, fruit);
    assert !HeadRecurs([fruit]);
    assert !Lost(field.side, [fruit]);
    lost := Tick(field, None, k);
    assert !lost;
    assert Fed([fruit], fruit) == [fruit, fruit];
  }
}
