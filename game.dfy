/** The game session: the variables the game keeps for the page and the
    operations that change them. Each method does what the game's handler does,
    step by step, and is proved to leave the state the Simulation module says. */
module Game {
  import opened Grid
  import opened Direction
  import opened Food
  import opened Simulation

  class Session {
    var snake: seq<Cell>
    var food: Cell
    var score: int
    var dx: int
    var dy: int
    var nextDx: int
    var nextDy: int
    var isGameRunning: bool

    /** The current values of the variables. */
    function State(): Snapshot
      reads this
    {
      Snapshot(snake, food, score, dx, dy, nextDx, nextDy, isGameRunning)
    }

    predicate Valid()
      reads this
    {
      Inv(State())
    }

    /** The variables as the page loads: no snake, food at the corner, nothing
        moving, not running. */
    constructor ()
      ensures State() == BOOT && Valid()
    {
      snake, food, score := [], Cell(0, 0), 0;
      dx, dy, nextDx, nextDy := 0, 0, 0, 0;
      isGameRunning := false;
      BootInv();
    }

    /** Retry draws until one is off the snake, and leave the food there. */
    method PlaceFood(draws: seq<Cell>)
      requires AllInBounds(draws) && HasFreeDraw(draws, snake)
      modifies this`food
      ensures food == draws[FirstFree(draws, snake)]
      ensures InBounds(food) && food !in snake
    {
      ghost var first := FirstFree(draws, snake);
      var i := 0;
      while true
        invariant 0 <= i <= first
        invariant forall j | 0 <= j < i :: draws[j] in snake
        decreases first - i
      {
        food := draws[i];
        var onSnake := Contains(snake, food);
        if !onSnake {
          break;
        }
        i := i + 1;
      }
      assert i == first;
    }

    /** Start a session: the three-segment snake heading up, no score, food
        placed off the snake, running. */
    method InitGame(draws: seq<Cell>)
      requires AllInBounds(draws) && HasFreeDraw(draws, START_SNAKE)
      modifies this
      ensures snake == [Cell(10, 10), Cell(10, 11), Cell(10, 12)]
      ensures score == 0 && dx == 0 && dy == -1 && nextDx == 0 && nextDy == -1
      ensures food == draws[FirstFree(draws, START_SNAKE)] && InBounds(food) && food !in snake
      ensures isGameRunning
      ensures State() == Started(draws) && Valid()
    {
      snake := [Cell(10, 10), Cell(10, 11), Cell(10, 12)];
      score := 0;
      dx := 0;
      dy := -1;
      nextDx := 0;
      nextDy := -1;
      PlaceFood(draws);
      isGameRunning := true;
      StartedInv(draws);
    }

    /** Stop the game after a collision. */
    method GameOver()
      modifies this`isGameRunning
      ensures !isGameRunning
      ensures State() == Stopped(old(State()))
      ensures old(Valid()) ==> Valid()
    {
      ghost var before := State();
      isGameRunning := false;
      if Inv(before) {
        StoppedInv(before);
      }
    }

    /** Go back to the menu: the game stops; the session's variables stay until
        the next start overwrites them. */
    method ShowMainMenu()
      requires Valid()
      modifies this`isGameRunning
      ensures !isGameRunning
      ensures State() == Stopped(old(State())) && Valid()
    {
      isGameRunning := false;
      StoppedInv(old(State()));
    }

    /** A keydown event: the requested step becomes pending unless it reverses
        the committed direction. It is handled whether or not a game runs. */
    method KeyDown(k: Key)
      requires Valid()
      modifies this`nextDx, this`nextDy
      ensures Accepts(Dir(dx, dy), k) ==> Dir(nextDx, nextDy) == KeyDir(k)
      ensures !Accepts(Dir(dx, dy), k) ==> nextDx == old(nextDx) && nextDy == old(nextDy)
      ensures State() == KeyPressed(old(State()), k) && Valid()
    {
      KeyPressedInv(State(), k);
      match k
      case ArrowUp =>
        if dy != 1 { nextDx, nextDy := 0, -1; }
      case ArrowDown =>
        if dy != -1 { nextDx, nextDy := 0, 1; }
      case ArrowLeft =>
        if dx != 1 { nextDx, nextDy := -1, 0; }
      case ArrowRight =>
        if dx != -1 { nextDx, nextDy := 1, 0; }
      case OtherKey =>
    }

    /** One tick: commit the pending direction, stop on a wall or on the body
        before the move, otherwise put the new head in front and either eat
        (score, new food, keep the tail) or drop the tail. */
    method Update(draws: seq<Cell>)
      requires Valid() && snake != []
      requires AllInBounds(draws) && CanPlaceFood(State(), draws)
      modifies this
      ensures State() == Step(old(State()), draws) && Valid()
    {
      ghost var before := State();
      StepInv(before, draws);
      if CommitGuard(Dir(dx, dy), Dir(nextDx, nextDy)) {
        dx := nextDx;
        dy := nextDy;
      }
      var head := Cell(snake[0].x + dx, snake[0].y + dy);
      assert Dir(dx, dy) == Heading(before) && head == NextHead(before);
      if head.x < 0 || head.x >= TILE_COUNT || head.y < 0 || head.y >= TILE_COUNT {
        StepCollides(before, draws);
        GameOver();
        return;
      }
      var hit := Contains(snake, head);
      if hit {
        StepCollides(before, draws);
        GameOver();
        return;
      }
      snake := [head] + snake;
      if head.x == food.x && head.y == food.y {
        StepEats(before, draws);
        score := score + 10;
        PlaceFood(draws);
      } else {
        StepMoves(before, draws);
        snake := snake[..|snake| - 1];
      }
    }

    /** What the timer runs while a game is running: one tick, and a redraw only
        if the game is still running afterwards. */
    method GameLoop(draws: seq<Cell>) returns (redraw: bool)
      requires Valid() && isGameRunning
      requires AllInBounds(draws) && CanPlaceFood(State(), draws)
      modifies this
      ensures State() == Step(old(State()), draws) && Valid()
      ensures redraw == isGameRunning
    {
      Update(draws);
      redraw := isGameRunning;
    }
  }
}
