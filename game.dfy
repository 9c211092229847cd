/** The game component: the state the React component keeps (snake, committed
    direction, pending direction, food, score, running flag), the interval
    tick that advances it, the keydown handler and the reset. Each tick and
    each key event is one atomic call on one `Game` object. */
module App {
  import opened Board
  import opened Food

  datatype Option<T> = None | Some(value: T)

  /** The keys that steer the snake, and that restart a stopped game. */
  const ArrowKeys: seq<string> := ["ArrowUp", "ArrowDown", "ArrowLeft", "ArrowRight"]

  /** The direction an arrow key asks for; any other key asks for none. */
  function KeyDirection(key: string): (r: Option<Point>)
    ensures r.Some? <==> key in ArrowKeys
    ensures r.Some? ==> IsDirection(r.value)
  {
    if key == "ArrowUp" then Some(Up)
    else if key == "ArrowDown" then Some(Down)
    else if key == "ArrowLeft" then Some(Left)
    else if key == "ArrowRight" then Some(Right)
    else None
  }

  /** The no-reversal rule on the pending direction: an arrow key replaces
      the pending direction with its own, unless that is exactly the
      opposite of the pending direction. Other keys change nothing. */
  function Steer(pending: Point, key: string): Point {
    match KeyDirection(key)
    case Some(d) => if d == Opposite(pending) then pending else d
    case None => pending
  }

  /** Steering keeps the pending direction a unit direction and never turns
      it around in one key press; an accepted arrow key always takes effect. */
  lemma SteerNeverReverses(pending: Point, key: string)
    requires IsDirection(pending)
    ensures IsDirection(Steer(pending, key))
    ensures Steer(pending, key) != Opposite(pending)
    ensures key in ArrowKeys && KeyDirection(key).value != Opposite(pending) ==>
              Steer(pending, key) == KeyDirection(key).value
    ensures key !in ArrowKeys ==> Steer(pending, key) == pending
  {
  }

  /** Because the rule compares against the pending direction and not the
      committed one, two key presses between ticks can turn the snake
      around: whatever the pending direction, a sideways key followed by
      the key opposite to the original direction is accepted twice. */
  lemma DoubleTurnReverses(d: Point)
    requires IsDirection(d)
    ensures exists k1, k2 :: k1 in ArrowKeys && k2 in ArrowKeys &&
              Steer(Steer(d, k1), k2) == Opposite(d)
  {
    var k1, k2 := "ArrowUp", "ArrowLeft";
    if d == Up {
      k1, k2 := "ArrowLeft", "ArrowDown";
    } else if d == Down {
      k1, k2 := "ArrowLeft", "ArrowUp";
    } else if d == Left {
      k2 := "ArrowRight";
    }
    assert k1 in ArrowKeys && k2 in ArrowKeys;
    assert Steer(Steer(d, k1), k2) == Opposite(d);
  }

  /** The double turn played out on a game: a running two-segment snake
      heading up gets Left then Down before one tick, and that tick runs the
      head into the second segment. */
  method DoubleTurnEndsGame(g: Game)
    requires g.Valid() && g.running && g.nextDir == Up
    requires g.snake == [Centre, Point(10, 11)]
    modifies g
    ensures !g.running
  {
    g.HandleKey("ArrowLeft");
    g.HandleKey("ArrowDown");
    assert g.snake == [Centre, Point(10, 11)] && g.nextDir == Down;
    g.Tick();
  }

  class Game {
    var snake: seq<Point>
    /** The direction of the last completed move (`direction`). */
    var direction: Point
    /** The buffered direction the next tick moves in (`nextDirRef.current`). */
    var nextDir: Point
    var food: Point
    var score: nat
    var running: bool

    /** The invariant every reachable state keeps, running or stopped. */
    ghost predicate Valid()
      reads this
    {
      && WellFormed(snake)
      && InBounds(food) && food !in snake
      && IsDirection(direction) && IsDirection(nextDir)
    }

    /** The state a new game starts in. */
    ghost predicate IsInitial()
      reads this
    {
      && snake == [Centre]
      && direction == Up && nextDir == Up
      && InBounds(food) && food != Centre
      && score == 0 && running
    }

    /** The head the next tick would move to. */
    ghost function NewHead(): Point
      reads this
      requires |snake| >= 1
    {
      NextHead(snake[0], nextDir)
    }

    /** The next tick will eat the food. */
    ghost predicate WillEat()
      reads this
      requires |snake| >= 1
    {
      running && !Collides(snake, NewHead()) && NewHead() == food
    }

    /** The initial `useState` values. */
    constructor ()
      ensures Valid() && IsInitial()
    {
      FreeCellWhenShort([Centre]);
      var f := RandomFood([Centre]);
      snake := [Centre];
      direction := Up;
      nextDir := Up;
      food := f;
      score := 0;
      running := true;
    }

    /** `resetGame`: every field goes back to its initial value, with freshly
        placed food. */
    method Reset()
      modifies this
      ensures Valid() && IsInitial()
    {
      snake := [Centre];
      direction := Up;
      nextDir := Up;
      FreeCellWhenShort([Centre]);
      food := RandomFood([Centre]);
      score := 0;
      running := true;
    }

    /** One firing of the game-loop interval. A stopped game has no interval,
        so nothing changes. Otherwise the head moves one cell in the pending
        direction; leaving the board or landing on any segment of the snake
        (its tail included) stops the game and changes nothing else. A safe
        move puts the new head in front, keeps the tail only when the food is
        eaten, and on eating places new food off the grown snake and adds one
        to the score. Eating the last free cell would leave no cell for the
        food, where the spawner never returns, so that move is excluded. */
    method Tick()
      requires Valid()
      requires WillEat() ==> |snake| + 1 < COLS * ROWS
      modifies this
      ensures Valid()
      ensures !old(running) ==> unchanged(this)
      ensures running <==> old(running) && !Collides(old(snake), old(NewHead()))
      ensures old(running) && Collides(old(snake), old(NewHead())) ==>
                && !running
                && snake == old(snake) && food == old(food) && score == old(score)
                && direction == old(direction) && nextDir == old(nextDir)
      ensures old(running) && !Collides(old(snake), old(NewHead())) ==>
                var ate := old(NewHead()) == old(food);
                && running
                && snake == Advanced(old(snake), old(NewHead()), ate)
                && score == old(score) + (if ate then 1 else 0)
                && (!ate ==> food == old(food))
                && direction == old(nextDir) && nextDir == old(nextDir)
      ensures score == old(score) || score == old(score) + 1
      ensures |snake| == |old(snake)| || |snake| == |old(snake)| + 1
    {
      if !running {
        return;
      }
      var dir := nextDir;
      var newHead := NextHead(snake[0], dir);
      if Collides(snake, newHead) {
        running := false;
        return;
      }
      var ate := newHead.x == food.x && newHead.y == food.y;
      var newSnake := [newHead] + snake;
      if !ate {
        newSnake := newSnake[..|newSnake| - 1];
      }
      assert newSnake == Advanced(snake, newHead, ate);
      AdvancePreservesShape(snake, dir, ate);
      snake := newSnake;
      if ate {
        FreeCellWhenShort(newSnake);
        food := RandomFood(newSnake);
        score := score + 1;
      } else {
        AdvanceAvoids(old(snake), newHead, ate, food);
      }
      direction := dir;
    }

    /** `handle`, the keydown listener. While stopped, an arrow key resets
        the game and any other key is ignored. While running, the key is
        tested against the pending direction one coordinate at a time, which
        for a unit direction is exactly the no-reversal rule `Steer`. */
    method HandleKey(key: string)
      requires Valid()
      modifies this
      ensures Valid()
      ensures !old(running) && key in ArrowKeys ==> IsInitial()
      ensures !old(running) && key !in ArrowKeys ==> unchanged(this)
      ensures old(running) ==>
                && nextDir == Steer(old(nextDir), key)
                && snake == old(snake) && direction == old(direction)
                && food == old(food) && score == old(score) && running
    {
      if !running && key in ArrowKeys {
        Reset();
        return;
      }
      if !running {
        return;
      }
      var dir := nextDir;
      if key == "ArrowUp" && dir.y != 1 { nextDir := Up; }
      if key == "ArrowDown" && dir.y != -1 { nextDir := Down; }
      if key == "ArrowLeft" && dir.x != 1 { nextDir := Left; }
      if key == "ArrowRight" && dir.x != -1 { nextDir := Right; }
    }
  }
}
