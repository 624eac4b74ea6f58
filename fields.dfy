/** The playing field: the grid's side, the fruit and the character
    matrix that is drawn each tick. */
module Fields {
  import opened Geometry
  import opened Lists
  import opened Snakes

  const BodyChar: char := '█'
  const FruitChar: char := '*'
  const EmptyChar: char := ' '

  /** `Enumerable.Repeat(v, n).ToList()`. */
  function Repeat<T>(v: T, n: nat): (r: seq<T>)
    ensures |r| == n && forall i :: 0 <= i < n ==> r[i] == v
  {
    seq(n, _ => v)
  }

  /** Some segment lies outside the grid (the `Any` test of the loss check). */
  function AnyOutside(parts: seq<Point>, side: int): (r: bool)
    ensures r <==> exists i :: 0 <= i < |parts| && !InGrid(parts[i], side)
  {
    if |parts| == 0 then false
    else if !InGrid(parts[0], side) then true
    else
      var rest := AnyOutside(parts[1..], side);
      assert forall i :: 0 < i < |parts| ==> parts[i] == parts[1..][i - 1];
      rest
  }

  /** The game is lost: the head bit the body or a segment left the grid. */
  ghost predicate Lost(side: int, body: seq<Point>)
    requires |body| >= 1
  {
    HeadRecurs(body) || exists i :: 0 <= i < |body| && !InGrid(body[i], side)
  }

  // ---------------------------------------------------------------------
  // Fruit candidates. The generating loops run y outside and x inside but
  // record the cell (y, x), so the list is ordered by x first, then by y.

  /** What the inner loop records for outer index `y`, from inner index `x` on. */
  function ScanRow(side: int, body: seq<Point>, y: int, x: int): seq<Point>
    decreases side - x
  {
    if x >= side then []
    else (if Point(y, x) in body then [] else [Point(y, x)]) + ScanRow(side, body, y, x + 1)
  }

  /** What the outer loop records from outer index `y` on. */
  function ScanFrom(side: int, body: seq<Point>, y: int): seq<Point>
    decreases side - y
  {
    if y >= side then [] else ScanRow(side, body, y, 0) + ScanFrom(side, body, y + 1)
  }

  /** The list of free cells the fruit is picked from. */
  function FreeCells(side: int, body: seq<Point>): seq<Point>
  {
    ScanFrom(side, body, 0)
  }

  lemma {:induction false} ScanRowHas(side: int, body: seq<Point>, y: int, x: int, p: Point)
    ensures p in ScanRow(side, body, y, x) <==> p.x == y && x <= p.y < side && p !in body
    decreases side - x
  {
    if x < side {
      ScanRowHas(side, body, y, x + 1, p);
    }
  }

  lemma {:induction false} ScanFromHas(side: int, body: seq<Point>, y: int, p: Point)
    ensures p in ScanFrom(side, body, y) <==> y <= p.x < side && 0 <= p.y < side && p !in body
    decreases side - y
  {
    if y < side {
      ScanRowHas(side, body, y, 0, p);
      ScanFromHas(side, body, y + 1, p);
    }
  }

  /** The candidates are exactly the grid cells not covered by the body. */
  lemma FreeCellsHas(side: int, body: seq<Point>, p: Point)
    ensures p in FreeCells(side, body) <==> InGrid(p, side) && p !in body
  {
    ScanFromHas(side, body, 0, p);
  }

  /** The order the candidates are listed in: by x, then by y. */
  predicate Precedes(p: Point, q: Point)
  {
    p.x < q.x || (p.x == q.x && p.y < q.y)
  }

  ghost predicate Ascending(s: seq<Point>)
  {
    forall i, j :: 0 <= i < j < |s| ==> Precedes(s[i], s[j])
  }

  lemma AscendingAppend(a: seq<Point>, b: seq<Point>)
    requires Ascending(a) && Ascending(b)
    requires forall p, q :: p in a && q in b ==> Precedes(p, q)
    ensures Ascending(a + b)
  {
    forall i, j | 0 <= i < j < |a + b|
      ensures Precedes((a + b)[i], (a + b)[j])
    {
      if j < |a| {
        assert (a + b)[i] == a[i] && (a + b)[j] == a[j];
      } else if i >= |a| {
        assert (a + b)[i] == b[i - |a|] && (a + b)[j] == b[j - |a|];
      } else {
        assert (a + b)[i] in a && (a + b)[j] in b;
      }
    }
  }

  lemma {:induction false} ScanRowAscending(side: int, body: seq<Point>, y: int, x: int)
    ensures Ascending(ScanRow(side, body, y, x))
    decreases side - x
  {
    if x < side {
      ScanRowAscending(side, body, y, x + 1);
      var head := if Point(y, x) in body then [] else [Point(y, x)];
      forall p, q | p in head && q in ScanRow(side, body, y, x + 1)
        ensures Precedes(p, q)
      {
        ScanRowHas(side, body, y, x + 1, q);
      }
      AscendingAppend(head, ScanRow(side, body, y, x + 1));
    }
  }

  lemma {:induction false} ScanFromAscending(side: int, body: seq<Point>, y: int)
    ensures Ascending(ScanFrom(side, body, y))
    decreases side - y
  {
    if y < side {
      ScanRowAscending(side, body, y, 0);
      ScanFromAscending(side, body, y + 1);
      forall p, q | p in ScanRow(side, body, y, 0) && q in ScanFrom(side, body, y + 1)
        ensures Precedes(p, q)
      {
        ScanRowHas(side, body, y, 0, p);
        ScanFromHas(side, body, y + 1, q);
      }
      AscendingAppend(ScanRow(side, body, y, 0), ScanFrom(side, body, y + 1));
    }
  }

  /** Candidates come x-major and without repetition. */
  lemma FreeCellsAscending(side: int, body: seq<Point>)
    ensures Ascending(FreeCells(side, body))
    ensures forall i, j :: 0 <= i < j < |FreeCells(side, body)| ==> FreeCells(side, body)[i] != FreeCells(side, body)[j]
  {
    ScanFromAscending(side, body, 0);
  }

  lemma {:induction false} ScanRowSameCells(side: int, b1: seq<Point>, b2: seq<Point>, y: int, x: int)
    requires forall p :: p in b1 <==> p in b2
    ensures ScanRow(side, b1, y, x) == ScanRow(side, b2, y, x)
    decreases side - x
  {
    if x < side {
      ScanRowSameCells(side, b1, b2, y, x + 1);
    }
  }

  lemma {:induction false} ScanFromSameCells(side: int, b1: seq<Point>, b2: seq<Point>, y: int)
    requires forall p :: p in b1 <==> p in b2
    ensures ScanFrom(side, b1, y) == ScanFrom(side, b2, y)
    decreases side - y
  {
    if y < side {
      ScanRowSameCells(side, b1, b2, y, 0);
      ScanFromSameCells(side, b1, b2, y + 1);
    }
  }

  /** The candidates depend only on which cells the body covers, so growing
      the snake (which duplicates the tail) leaves them as they were. */
  lemma FreeCellsSameCells(side: int, b1: seq<Point>, b2: seq<Point>)
    requires forall p :: p in b1 <==> p in b2
    ensures FreeCells(side, b1) == FreeCells(side, b2)
  {
    ScanFromSameCells(side, b1, b2, 0);
  }

  lemma {:induction false} ScanRowCountOne(side: int, c: Point, y: int, x: int)
    requires 0 <= x <= side
    ensures |ScanRow(side, [c], y, x)| == side - x - (if c.x == y && x <= c.y < side then 1 else 0)
    decreases side - x
  {
    if x < side {
      ScanRowCountOne(side, c, y, x + 1);
    }
  }

  lemma {:induction false} ScanFromCountOne(side: int, c: Point, y: int)
    requires 0 <= y <= side
    ensures |ScanFrom(side, [c], y)| == (side - y) * side - (if y <= c.x < side && 0 <= c.y < side then 1 else 0)
    decreases side - y
  {
    if y < side {
      ScanRowCountOne(side, c, y, 0);
      ScanFromCountOne(side, c, y + 1);
      assert (side - y) * side == side + (side - (y + 1)) * side;
    }
  }

  /** A snake covering a single cell leaves every other cell of the grid
      free: `side * side - 1` candidates when that cell is on the grid. */
  lemma FreeCellsCountOneCell(side: nat, body: seq<Point>, c: Point)
    requires |body| >= 1 && forall i :: 0 <= i < |body| ==> body[i] == c
    ensures |FreeCells(side, body)| == side * side - (if InGrid(c, side) then 1 else 0)
  {
    forall p
      ensures p in body <==> p in [c]
    {
      if p in body {
        var i :| 0 <= i < |body| && body[i] == p;
      } else {
        assert body[0] == c;
      }
    }
    FreeCellsSameCells(side, body, [c]);
    ScanFromCountOne(side, c, 0);
  }

  // ---------------------------------------------------------------------
  // The drawn matrix.

  /** `side` rows of `side` characters. */
  ghost predicate IsGrid(matrix: seq<seq<char>>, side: int)
  {
    |matrix| == side && forall y :: 0 <= y < side ==> |matrix[y]| == side
  }

  /** What cell (x, y) shows: the body wins over the fruit, the fruit over
      the background. */
  function CellChar(body: seq<Point>, fruit: Point, x: int, y: int): char
  {
    if Point(x, y) in body then BodyChar
    else if Point(x, y) == fruit then FruitChar
    else EmptyChar
  }

  ghost predicate Shows(matrix: seq<seq<char>>, side: int, body: seq<Point>, fruit: Point)
  {
    IsGrid(matrix, side) &&
    forall y, x :: 0 <= y < side && 0 <= x < side ==> matrix[y][x] == CellChar(body, fruit, x, y)
  }

  class Field {
    var fruit: Point
    const snake: Snake
    const side: nat
    var matrix: seq<seq<char>>

    ghost predicate Valid()
      reads this, snake
    {
      snake.Valid() && InGrid(fruit, side) && IsGrid(matrix, side)
    }

    /** Places the first fruit at candidate `k` and draws the matrix. The
        snake is drawn without a loss check first, so it must lie on the grid. */
    constructor (snake: Snake, side: nat, k: nat)
      requires snake.Valid()
      requires forall i :: 0 <= i < |snake.body| ==> InGrid(snake.body[i], side)
      requires k < |FreeCells(side, snake.body)|
      ensures Valid()
      ensures this.snake == snake && this.side == side
      ensures fruit == FreeCells(side, snake.body)[k] && fruit !in snake.body
      ensures Shows(matrix, side, snake.body, fruit)
    {
      this.snake := snake;
      this.side := side;
      var row := Repeat(EmptyChar, side);
      matrix := Repeat(row, side);
      fruit := Point(0, 0);  // not yet chosen
      new;
      GenerateFruit(k);
      PutEmpty();
      PutFruit();
      PutSnake();
    }

    /** One evaluation: the loss check, then the fruit check, then a redraw.
        On loss nothing is changed (the process ends there). */
    method EvalField(k: nat) returns (lost: bool)
      requires Valid()
      requires fruit in snake.body && !Lost(side, snake.body) ==> k < |FreeCells(side, snake.body)|
      modifies this`fruit, this`matrix, snake`body
      ensures lost <==> old(Lost(side, snake.body))
      ensures lost ==> fruit == old(fruit) && matrix == old(matrix) && snake.body == old(snake.body)
      ensures !lost ==> Valid() && fruit !in snake.body && Shows(matrix, side, snake.body, fruit)
      ensures !lost && old(fruit in snake.body) ==>
        snake.body == old(snake.body) + [old(snake.body[|snake.body| - 1])] &&
        fruit == FreeCells(side, old(snake.body))[k]
      ensures !lost && old(fruit !in snake.body) ==> snake.body == old(snake.body) && fruit == old(fruit)
    {
      lost := CheckColision();
      if lost {
        return;
      }
      CheckFruit(k);
      PutEmpty();
      PutFruit();
      PutSnake();
    }

    /** The loss test: head collision or any segment off the grid. */
    function CheckColision(): (lost: bool)
      reads this, snake
      requires |snake.body| >= 1
      ensures lost <==> Lost(side, snake.body)
      ensures !lost ==> forall i :: 0 <= i < |snake.body| ==> InGrid(snake.body[i], side)
    {
      snake.HeadBodyColision() || AnyOutside(snake.body, side)
    }

    /** When the fruit is under the body the snake grows once and a new
        fruit is placed; either way the fruit ends off the body. */
    method CheckFruit(k: nat)
      requires snake.Valid()
      requires fruit in snake.body ==> k < |FreeCells(side, snake.body)|
      modifies this`fruit, snake`body
      ensures snake.Valid()
      ensures fruit !in snake.body
      ensures old(fruit in snake.body) ==> InGrid(fruit, side)
      ensures old(fruit in snake.body) ==>
        snake.body == old(snake.body) + [old(snake.body[|snake.body| - 1])] &&
        fruit == FreeCells(side, old(snake.body))[k]
      ensures old(fruit !in snake.body) ==> snake.body == old(snake.body) && fruit == old(fruit)
    {
      if Find(snake.body, fruit).Some? {
        snake.GrowBody();
        FreeCellsSameCells(side, old(snake.body), snake.body);
        GenerateFruit(k);
      }
    }

    /** Clears every row to the background character. */
    method PutEmpty()
      requires |matrix| == side
      modifies this`matrix
      ensures IsGrid(matrix, side)
      ensures forall y, x :: 0 <= y < side && 0 <= x < side ==> matrix[y][x] == EmptyChar
    {
      var y := 0;
      while y < side
        invariant 0 <= y <= side && |matrix| == side
        invariant forall r :: 0 <= r < y ==> matrix[r] == Repeat(EmptyChar, side)
      {
        var row := Repeat(EmptyChar, side);
        matrix := matrix[y := row];
        y := y + 1;
      }
    }

    /** Stamps every body segment; later stamps may land on earlier ones. */
    method PutSnake()
      requires IsGrid(matrix, side)
      requires forall i :: 0 <= i < |snake.body| ==> InGrid(snake.body[i], side)
      modifies this`matrix
      ensures IsGrid(matrix, side)
      ensures forall y, x :: 0 <= y < side && 0 <= x < side ==>
        matrix[y][x] == if Point(x, y) in snake.body then BodyChar else old(matrix[y][x])
    {
      var i := 0;
      while i < |snake.body|
        invariant 0 <= i <= |snake.body|
        invariant IsGrid(matrix, side)
        invariant forall y, x :: 0 <= y < side && 0 <= x < side ==>
          matrix[y][x] == if Point(x, y) in snake.body[..i] then BodyChar else old(matrix[y][x])
      {
        var part := snake.body[i];
        assert snake.body[..i + 1] == snake.body[..i] + [part];
        matrix := matrix[part.y := matrix[part.y][part.x := BodyChar]];
        i := i + 1;
      }
      assert snake.body[..i] == snake.body;
    }

    /** Picks candidate `k` among the free cells, listed in the loops'
        order. An empty candidate list makes the source's indexing fail,
        hence the bound on `k`. */
    method GenerateFruit(k: nat)
      requires k < |FreeCells(side, snake.body)|
      modifies this`fruit
      ensures fruit == FreeCells(side, snake.body)[k]
      ensures InGrid(fruit, side) && fruit !in snake.body
    {
      var body := snake.body;
      ghost var all := FreeCells(side, body);
      var possibleLocs: seq<Point> := [];
      var y := 0;
      while y < side
        invariant 0 <= y <= side
        invariant possibleLocs + ScanFrom(side, body, y) == all
      {
        var x := 0;
        while x < side
          invariant 0 <= x <= side
          invariant possibleLocs + (ScanRow(side, body, y, x) + ScanFrom(side, body, y + 1)) == all
        {
          var currPos := Point(y, x);
          ghost var rest := ScanRow(side, body, y, x + 1) + ScanFrom(side, body, y + 1);
          if currPos !in body {
            assert ScanRow(side, body, y, x) + ScanFrom(side, body, y + 1) == [currPos] + rest;
            assert possibleLocs + ([currPos] + rest) == (possibleLocs + [currPos]) + rest;
            possibleLocs := possibleLocs + [currPos];
          } else {
            assert ScanRow(side, body, y, x) + ScanFrom(side, body, y + 1) == rest;
          }
          x := x + 1;
        }
        y := y + 1;
      }
      fruit := possibleLocs[k];
      FreeCellsHas(side, snake.body, fruit);
    }

    method PutFruit()
      requires IsGrid(matrix, side) && InGrid(fruit, side)
      modifies this`matrix
      ensures IsGrid(matrix, side)
      ensures forall y, x :: 0 <= y < side && 0 <= x < side ==>
        matrix[y][x] == if Point(x, y) == fruit then FruitChar else old(matrix[y][x])
    {
      matrix := matrix[fruit.y := matrix[fruit.y][fruit.x := FruitChar]];
    }
  }
}
