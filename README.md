# Snake game — a verified model of the simulation core

This project models the simulation of a terminal Snake game (`Program.cs`):
a snake on a `side × side` grid moves one cell per tick, grows when it
reaches the fruit and loses when its head bites its body or a segment
leaves the grid. The model keeps the program's own structure:

- `Geometry` — `Point` as a value (`+` is `Add`, equality is structural),
  the four headings, and `Turned`, the anti-reversal rule stated as a
  specification the steering methods are proved against.
- `Lists` — `Find` and `FindLast` of .NET's `LinkedList<T>`, which the
  collision test compares. A node is identified by its position, so
  comparing two found nodes is comparing two indices.
- `Snakes` — class `Snake` with a mutable heading and a body (head first)
  kept as a `seq<Point>` field that `Move` and `GrowBody` reassign. Its
  invariant `Valid()` says the body is non-empty and the heading is one of
  the four unit vectors.
- `Fields` — class `Field` with the fruit, the side and the drawn matrix
  (`seq<seq<char>>`, rebuilt row by row and stamped cell by cell as the
  program does). `FreeCells` is the list of fruit candidates in the
  program's enumeration order: the loops run `y` outside and `x` inside
  but record the cell `(y, x)`, so the list is ordered by x, then by y.
  The set of candidates is still exactly the grid minus the body
  (`FreeCellsHas`), and `FreeCellsAscending` proves the order.
- `Game` — `Tick`, one turn of the main loop: at most one arrow key turns
  the snake, the field is evaluated against the body as it stands, and
  only then does the snake advance. This is the order of the program,
  where `move` raises its notification before changing the body.

`random.Next` becomes a caller-supplied index `k` into the candidate
list, and the process exit on loss becomes a returned `lost` flag with the
state left untouched.

The evaluation runs at the start of `move`, on the body before it
advances, so the snake eats a fruit one tick after its head reaches it.
A fruit just ahead of a one-cell snake at `(1,1)` is found when the body
is `[(2,1)]`: the copied tail is `(2,1)` and 24 cells of a 5 × 5 grid are
free (`Game.EatenOneTickLate`, `Fields.FreeCellsCountOneCell`).

## Model

| member | source | states |
|---|---|---|
| Geometry.Add | Program.cs:225 | component-wise sum of two points; the sum differs from the first point iff the second is not the origin |
| Geometry.AddOppositeCancels | Program.cs:225 | stepping along a vector and then along its opposite returns to the starting cell |
| Geometry.StepIsNeighbour | Program.cs:225 | adding a unit heading to a cell gives one of its four orthogonal neighbours |
| Geometry.TurnedIsUnit | Program.cs:279-309 | a granted or refused turn keeps the heading one of the four unit vectors |
| Geometry.TurnedIdempotent | Program.cs:279-309 | asking twice for the same heading has the effect of asking once |
| Geometry.TurnedRefusesOnlyReversal | Program.cs:279-309 | a turn leaves the heading as it was exactly when the request repeats it or reverses it; any non-reversing request is granted |
| Lists.Find | Program.cs:260 | `LinkedList.Find`: none iff the value is absent, otherwise the first index holding it |
| Lists.FindLast | Program.cs:261 | `LinkedList.FindLast`: none iff the value is absent, otherwise the last index holding it |
| Snakes.Snake.constructor | Program.cs:247-252 | a new snake has the one segment given and heads right, `(1, 0)` |
| Snakes.Snake.HeadBodyColision | Program.cs:254-266 | true iff some index `i > 0` holds the head's value; a one-segment body never collides; duplicates among later segments alone do not count |
| Snakes.Snake.GrowBody | Program.cs:268-270 | appends a copy of the tail: length plus one, earlier segments unchanged, same set of occupied cells |
| Snakes.Snake.Move | Program.cs:272-277 | the body becomes `[head + direction]` followed by the old body without its last segment; length and heading unchanged |
| Snakes.Snake.ToTop | Program.cs:279-285 | the heading becomes `Turned(old heading, (0,-1))`: up unless currently heading down |
| Snakes.Snake.ToBot | Program.cs:287-293 | the heading becomes `Turned(old heading, (0,1))`: down unless currently heading up |
| Snakes.Snake.ToLeft | Program.cs:295-301 | the heading becomes `Turned(old heading, (-1,0))`: left unless currently heading right |
| Snakes.Snake.ToRight | Program.cs:303-309 | the heading becomes `Turned(old heading, (1,0))`: right unless currently heading left |
| Fields.Repeat | Program.cs:150 | `Enumerable.Repeat(v, n).ToList()` has length `n` and holds `v` everywhere |
| Fields.AnyOutside | Program.cs:127-129 | true iff some segment has `x < 0`, `x >= side`, `y < 0` or `y >= side` |
| Fields.ScanRowHas | Program.cs:168-175 | the inner loop records for outer index `y` exactly the free cells `(y, x')` with `x' >= x` still in the row |
| Fields.ScanFromHas | Program.cs:166-176 | the outer loop from index `y` records exactly the free grid cells whose x is at least `y` |
| Fields.FreeCellsHas | Program.cs:163-179 | a cell is a fruit candidate iff it lies on the grid and no body segment covers it |
| Fields.ScanRowAscending | Program.cs:168-175 | one inner-loop pass records cells in increasing y |
| Fields.ScanFromAscending | Program.cs:166-176 | the outer loop records cells ordered by x, then by y |
| Fields.FreeCellsAscending | Program.cs:165-176 | the candidate list is ordered by x, then y (the transposed enumeration) and has no repeated cell |
| Fields.ScanRowSameCells | Program.cs:171 | one inner-loop pass depends only on which cells the body covers |
| Fields.ScanFromSameCells | Program.cs:171 | the outer loop depends only on which cells the body covers |
| Fields.FreeCellsSameCells | Program.cs:137-144 | bodies covering the same cells give the same candidate list, so growing before regenerating changes no candidate |
| Fields.ScanRowCountOne | Program.cs:168-175 | with a one-cell body, an inner-loop pass records every remaining cell of the row but that one |
| Fields.ScanFromCountOne | Program.cs:166-176 | with a one-cell body, the outer loop records `(side - y) * side` cells less the body's cell if it is among them |
| Fields.FreeCellsCountOneCell | Program.cs:163-179 | a body covering one cell leaves `side * side - 1` candidates when that cell is on the grid, `side * side` otherwise |
| Fields.Field.constructor | Program.cs:99-113 | the first fruit is candidate `k`, off the body; the matrix is `side` rows of `side` chars showing body, fruit and background |
| Fields.Field.CheckColision | Program.cs:124-135 | reports loss iff the head recurs in the body or some segment is off the grid; otherwise every segment is on the grid |
| Fields.Field.CheckFruit | Program.cs:137-144 | fruit under the body: the body grows by exactly one copied tail and the fruit becomes candidate `k`; otherwise nothing changes; either way the fruit ends off the body |
| Fields.Field.PutEmpty | Program.cs:146-153 | every row is replaced by `side` spaces |
| Fields.Field.PutSnake | Program.cs:155-161 | every cell covered by a segment shows the body character, every other cell is unchanged |
| Fields.Field.GenerateFruit | Program.cs:163-179 | the fruit becomes candidate `k` of the loops' list, which lies on the grid and off the body |
| Fields.Field.PutFruit | Program.cs:181-184 | the fruit's cell shows `*`, every other cell is unchanged |
| Fields.Field.EvalField | Program.cs:115-122 | loss iff the collision test fails, with nothing changed; otherwise the fruit check's effect, the fruit off the body, and `matrix[y][x]` is the body character iff `(x,y)` is in the body, else `*` iff it is the fruit, else a space |
| Game.Heading | Program.cs:24-27 | each arrow key asks for the matching unit heading |
| Game.NewGame | Program.cs:16-18 | a new game has a one-cell snake at `(1,1)` heading right and a fruit on one of the `side * side - 1` other cells |
| Game.Tick | Program.cs:29-35 | one tick: the key's turn, loss iff the pre-move body loses (state kept), else the pre-move body (grown if on the fruit) is drawn with the fruit off it and the snake then advances one cell |
| Game.EatenOneTickLate | Program.cs:272-277 | a fruit just ahead of a one-cell snake is eaten on the second tick: the body becomes `[fruit + heading, fruit]` and the new fruit is candidate `k` |

## Left out

- Keyboard polling (`KeyPress.ReadKeyPress`, `Console.KeyAvailable`, `Console.ReadKey`) is terminal input; it is the optional key argument of `Tick`.
- `UI.Draw` and its box-drawing output is console rendering that changes no state.
- The endless `while (true)` loop and `Thread.Sleep(150)` are timing and non-termination; one `Tick` models one iteration.
- `System.Random` is nondeterministic; the caller supplies the index `k` into the candidate list.
- `Console.Clear`, the "You lost!" message and `Environment.Exit(0)` are process control; `EvalField` and `Tick` return `lost` and leave the state as it was.
- The delegate and event wiring is replaced by direct calls in the same order.
- `Point.Debug` and the parameterless `Point()` constructor are diagnostic or unused.
- The constructor's initial matrix whose rows all alias one list is irrelevant, since `PutEmpty` replaces every row before any cell is written; the model's rows are values.
- Coordinates are unbounded integers, not 32-bit; a lost game stops before a coordinate moves more than one cell off the grid, so wrap-around cannot arise.
- The side is a natural number; a negative side makes the program throw while building the matrix.
- The field constructor requires every segment on the grid, since the program stamps the snake without a loss check first and would throw otherwise.
- GenerateFruit, CheckFruit, EvalField and Tick: require a free cell whenever a fruit must be placed (`k < |FreeCells(...)|`); the program's `ArgumentOutOfRangeException` from indexing an empty candidate list when the body covers the whole grid is not modelled.
