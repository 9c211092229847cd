/** The board of the snake game: a fixed COLS x ROWS grid of integer cells,
    the four unit directions, and the pure parts of the per-tick step
    (the new head, the collision test and the shape the snake keeps). */
module Board {

  const COLS: int := 20
  const ROWS: int := 20

  /** A pair of integer coordinates. The game uses it both for a grid cell
      and for a direction vector, as the source does with `{x, y}` objects. */
  datatype Point = Point(x: int, y: int)

  const Up: Point := Point(0, -1)
  const Down: Point := Point(0, 1)
  const Left: Point := Point(-1, 0)
  const Right: Point := Point(1, 0)

  /** The cell at the centre of the board, where every game starts. */
  const Centre: Point := Point(10, 10)

  predicate IsDirection(d: Point) {
    d == Up || d == Down || d == Left || d == Right
  }

  function Opposite(d: Point): Point {
    Point(-d.x, -d.y)
  }

  predicate InBounds(p: Point) {
    0 <= p.x < COLS && 0 <= p.y < ROWS
  }

  /** Two cells that share a side. */
  predicate Adjacent(a: Point, b: Point) {
    (a.x == b.x && (a.y - b.y == 1 || b.y - a.y == 1)) ||
    (a.y == b.y && (a.x - b.x == 1 || b.x - a.x == 1))
  }

  /** `snake.some(seg => seg.x === p.x && seg.y === p.y)`: a scan from the
      head that compares coordinates; it holds exactly when `p` is a cell
      of the snake. */
  function Occupied(snake: seq<Point>, p: Point): (r: bool)
    ensures r <==> p in snake
  {
    if snake == [] then false
    else (snake[0].x == p.x && snake[0].y == p.y) || Occupied(snake[1..], p)
  }

  /** The head the snake would move to: the current head shifted by `d`. */
  function NextHead(head: Point, d: Point): (r: Point)
    ensures IsDirection(d) ==> Adjacent(head, r) && r != head
  {
    Point(head.x + d.x, head.y + d.y)
  }

  /** The game-ending test of one tick: the new head leaves the board, or it
      lands on any cell of the snake as it is before the move, the tail cell
      that is about to be dropped included. */
  predicate Collides(snake: seq<Point>, head: Point) {
    head.x < 0 || head.x >= COLS ||
    head.y < 0 || head.y >= ROWS ||
    Occupied(snake, head)
  }

  lemma CollidesMeans(snake: seq<Point>, head: Point)
    ensures Collides(snake, head) <==> !InBounds(head) || head in snake
  {
  }

  predicate Distinct(s: seq<Point>) {
    forall i, j :: 0 <= i < j < |s| ==> s[i] != s[j]
  }

  /** The shape a live snake keeps: at least one segment, every segment on
      the board, no two segments on one cell, and each segment next to the
      one before it. */
  predicate WellFormed(s: seq<Point>) {
    && |s| >= 1
    && (forall i :: 0 <= i < |s| ==> InBounds(s[i]))
    && Distinct(s)
    && (forall i :: 0 < i < |s| ==> Adjacent(s[i - 1], s[i]))
  }

  /** The snake after a collision-free move to `head`: the head is put in
      front, and the last segment is dropped unless food was eaten. */
  function Advanced(s: seq<Point>, head: Point, ate: bool): (r: seq<Point>)
    requires |s| >= 1
    ensures |r| == |s| + (if ate then 1 else 0)
    ensures r[0] == head && r[1..] <= s
    ensures ate ==> r[1..] == s
  {
    if ate then [head] + s else [head] + s[..|s| - 1]
  }

  /** A move that passes the collision test keeps the snake well formed,
      whether it grows or not. */
  lemma AdvancePreservesShape(s: seq<Point>, d: Point, ate: bool)
    requires WellFormed(s) && IsDirection(d)
    requires !Collides(s, NextHead(s[0], d))
    ensures WellFormed(Advanced(s, NextHead(s[0], d), ate))
  {
  }

  /** A cell that is off the snake stays off it after a move that does not
      land on it. */
  lemma AdvanceAvoids(s: seq<Point>, head: Point, ate: bool, p: Point)
    requires |s| >= 1 && p !in s && p != head
    ensures p !in Advanced(s, head, ate)
  {
  }
}
