/** Food placement: `getRandomFood` draws random cells until one is off the
    snake. The random draw is replaced by a nondeterministic choice among the
    free cells, and the retry loop's termination by the requirement that a
    free cell exists, which a counting argument guarantees whenever the snake
    is shorter than the number of cells on the board. */
module Food {
  import opened Board

  /** There is a cell on the board that the snake does not cover. */
  ghost predicate HasFreeCell(snake: seq<Point>) {
    exists c :: InBounds(c) && !Occupied(snake, c)
  }

  /** Row-major number of a cell: an on-board cell gets a distinct number in
      [0, COLS * ROWS). */
  function Index(c: Point): int {
    c.y * COLS + c.x
  }

  function Indices(s: seq<Point>): (r: seq<int>)
    ensures forall c :: c in s ==> Index(c) in r
  {
    var r := seq(|s|, i requires 0 <= i < |s| => Index(s[i]));
    assert forall i :: 0 <= i < |s| ==> r[i] == Index(s[i]);
    r
  }

  /** `s` with every occurrence of `v` taken out. */
  function Without(s: seq<int>, v: int): (r: seq<int>)
    ensures |r| <= |s| && (v in s ==> |r| < |s|)
    ensures forall x :: x in r <==> x in s && x != v
  {
    if s == [] then []
    else if s[0] == v then Without(s[1..], v)
    else [s[0]] + Without(s[1..], v)
  }

  /** Fewer than `n` numbers cannot cover all of [0, n). */
  lemma {:induction false} MissingNumber(s: seq<int>, n: nat)
    requires |s| < n
    ensures exists k :: 0 <= k < n && k !in s
    decreases n
  {
    if n - 1 in s {
      var rest := Without(s, n - 1);
      MissingNumber(rest, n - 1);
      var k :| 0 <= k < n - 1 && k !in rest;
      assert k !in s;
    }
  }

  /** A snake with fewer segments than the board has cells leaves a cell
      free, so the retry loop of the food spawner can succeed. */
  lemma FreeCellWhenShort(snake: seq<Point>)
    requires |snake| < COLS * ROWS
    ensures HasFreeCell(snake)
  {
    var ix := Indices(snake);
    MissingNumber(ix, COLS * ROWS);
    var k :| 0 <= k < COLS * ROWS && k !in ix;
    var c := Point(k % COLS, k / COLS);
    assert Index(c) == k;
    assert InBounds(c) && !Occupied(snake, c);
  }

  /** `getRandomFood`: a cell on the board that is not a segment of `snake`.
      Any free cell may be returned. */
  method RandomFood(snake: seq<Point>) returns (food: Point)
    requires HasFreeCell(snake)
    ensures InBounds(food) && food !in snake
  {
    food :| InBounds(food) && !Occupied(snake, food);
  }
}
