/** What one tick of the game does to the session state, stated as a function
    of the state before it, and the invariant every tick keeps. */
module Simulation {
  import opened Grid
  import opened Direction
  import opened Food

  /** Points for one piece of food. */
  const REWARD: int := 10

  /** The snake a new session starts with, head first, heading up. */
  const START_SNAKE: seq<Cell> := [Cell(10, 10), Cell(10, 11), Cell(10, 12)]

  /** The values of the session's variables at one moment. */
  datatype Snapshot = Snapshot(
    snake: seq<Cell>,
    food: Cell,
    score: int,
    dx: int,
    dy: int,
    nextDx: int,
    nextDy: int,
    isGameRunning: bool)
  {
    /** The direction the snake moves in. */
    function Committed(): Dir { Dir(dx, dy) }

    /** The direction the last accepted key asked for. */
    function Pending(): Dir { Dir(nextDx, nextDy) }
  }

  /** The variables as the page loads, before any session has started. */
  const BOOT: Snapshot := Snapshot([], Cell(0, 0), 0, 0, 0, 0, 0, false)

  /** The segments are on the board and no two share a cell; the food is on the
      board and off the snake. */
  predicate CellsOk(snake: seq<Cell>, food: Cell) {
    AllInBounds(snake) && Distinct(snake) && InBounds(food) && food !in snake
  }

  /** Both direction slots hold a unit step or standing still, and the pending
      one never reverses a moving committed one. */
  predicate DirsOk(committed: Dir, pending: Dir) {
    IsDirection(committed) && IsDirection(pending) &&
    (committed == Zero || pending != Reverse(committed))
  }

  /** Before the first session nothing moves and nothing runs; from then on the
      snake moves, and the score is REWARD for each segment grown beyond the first
      three (hence a non-negative multiple of REWARD). */
  predicate ProgressOk(snake: seq<Cell>, score: int, committed: Dir, running: bool) {
    if snake == [] then
      score == 0 && committed == Zero && !running
    else
      IsUnit(committed) && score >= 0 && score == REWARD * (|snake| - |START_SNAKE|)
  }

  /** What holds of the session at every moment. */
  predicate Inv(s: Snapshot) {
    CellsOk(s.snake, s.food) && DirsOk(s.Committed(), s.Pending()) &&
    ProgressOk(s.snake, s.score, s.Committed(), s.isGameRunning)
  }

  /** The direction in effect once the tick has committed the pending one. */
  function Heading(s: Snapshot): Dir {
    CommitDir(s.Committed(), s.Pending())
  }

  /** Where the head moves this tick. */
  function NextHead(s: Snapshot): Cell
    requires s.snake != []
  {
    Move(s.snake[0], Heading(s))
  }

  /** The new head leaves the board. */
  predicate HitsWall(s: Snapshot)
    requires s.snake != []
  {
    !InBounds(NextHead(s))
  }

  /** The new head lands on a segment of the body as it was before the move,
      the tail included. */
  predicate HitsSelf(s: Snapshot)
    requires s.snake != []
  {
    NextHead(s) in s.snake
  }

  /** The snake moves onto the food. */
  predicate Eats(s: Snapshot)
    requires s.snake != []
  {
    !HitsWall(s) && !HitsSelf(s) && NextHead(s) == s.food
  }

  /** The draws a tick needs: if it eats, some draw must land off the grown
      snake, otherwise the placement loop never stops. */
  predicate CanPlaceFood(s: Snapshot, draws: seq<Cell>)
    requires s.snake != []
  {
    Eats(s) ==> HasFreeDraw(draws, [NextHead(s)] + s.snake)
  }

  /** One tick: commit the direction, then end the game on a collision, or move
      the head and either eat (grow, score, place new food) or drop the tail. */
  function Step(s: Snapshot, draws: seq<Cell>): Snapshot
    requires s.snake != []
    requires CanPlaceFood(s, draws)
  {
    var d := Heading(s);
    var turned := s.(dx := d.dx, dy := d.dy);
    var head := NextHead(s);
    if HitsWall(s) || HitsSelf(s) then
      turned.(isGameRunning := false)
    else if head == s.food then
      var grown := [head] + s.snake;
      turned.(snake := grown, score := s.score + REWARD, food := draws[FirstFree(draws, grown)])
    else
      turned.(snake := [head] + s.snake[..|s.snake| - 1])
  }

  /** The state a new session starts in, whatever came before. */
  function Started(draws: seq<Cell>): Snapshot
    requires HasFreeDraw(draws, START_SNAKE)
  {
    Snapshot(START_SNAKE, draws[FirstFree(draws, START_SNAKE)], 0, Up.dx, Up.dy, Up.dx, Up.dy, true)
  }

  /** The state after a key press. */
  function KeyPressed(s: Snapshot, k: Key): Snapshot {
    var p := RequestDir(s.Committed(), s.Pending(), k);
    s.(nextDx := p.dx, nextDy := p.dy)
  }

  /** The state after the game stops (game over, or back to the menu). */
  function Stopped(s: Snapshot): Snapshot {
    s.(isGameRunning := false)
  }

  /** The state after a tick that ends the game. This and the next two lemmas
      only spell out one branch of Step each; they are proof steps for
      Game.Session.Update and MoveTick, not properties of their own. */
  lemma StepCollides(s: Snapshot, draws: seq<Cell>)
    requires s.snake != [] && (HitsWall(s) || HitsSelf(s))
    ensures Step(s, draws) == s.(dx := Heading(s).dx, dy := Heading(s).dy, isGameRunning := false)
  {
  }

  /** The state after a tick that eats (a proof step, as above). */
  lemma StepEats(s: Snapshot, draws: seq<Cell>)
    requires s.snake != [] && Eats(s) && CanPlaceFood(s, draws)
    ensures var grown := [NextHead(s)] + s.snake;
      Step(s, draws) == s.(dx := Heading(s).dx, dy := Heading(s).dy, snake := grown,
        score := s.score + REWARD, food := draws[FirstFree(draws, grown)])
  {
  }

  /** The state after a tick that only moves (a proof step, as above). */
  lemma StepMoves(s: Snapshot, draws: seq<Cell>)
    requires s.snake != [] && !HitsWall(s) && !HitsSelf(s) && NextHead(s) != s.food
    ensures Step(s, draws) == s.(dx := Heading(s).dx, dy := Heading(s).dy, snake := [NextHead(s)] + s.snake[..|s.snake| - 1])
  {
  }

  lemma BootInv()
    ensures Inv(BOOT)
  {
  }

  /** A new session starts valid: the three-segment snake, no score, heading up,
      running, with the food on the board and off the snake. */
  lemma StartedInv(draws: seq<Cell>)
    requires AllInBounds(draws) && HasFreeDraw(draws, START_SNAKE)
    ensures Inv(Started(draws))
  {
    var i := FirstFree(draws, START_SNAKE);
    assert InBounds(draws[i]);
  }

  /** A key press keeps the invariant: the pending slot only takes a step that
      does not reverse the committed direction. */
  lemma KeyPressedInv(s: Snapshot, k: Key)
    requires Inv(s)
    ensures Inv(KeyPressed(s, k))
  {
    var r := KeyPressed(s, k);
    RequestKeepsDirs(s.Committed(), s.Pending(), k);
    assert r.Committed() == s.Committed() && r.Pending() == RequestDir(s.Committed(), s.Pending(), k);
  }

  /** The key filter only lets through steps that do not reverse the committed
      direction. */
  lemma RequestKeepsDirs(committed: Dir, pending: Dir, k: Key)
    requires DirsOk(committed, pending)
    ensures DirsOk(committed, RequestDir(committed, pending, k))
  {
    if Accepts(committed, k) {
      assert KeyDir(k) != Reverse(committed);
    }
  }

  lemma StoppedInv(s: Snapshot)
    requires Inv(s)
    ensures Inv(Stopped(s))
  {
  }

  /** The commit keeps the direction slots valid: the new committed direction is
      a unit step that does not reverse the old one, and the unchanged pending
      direction does not reverse it either. */
  lemma HeadingInv(s: Snapshot)
    requires DirsOk(s.Committed(), s.Pending()) && IsUnit(s.Committed())
    ensures IsUnit(Heading(s)) && Heading(s) != Reverse(s.Committed())
    ensures DirsOk(Heading(s), s.Pending())
  {
  }

  /** Adding a head on a free board cell keeps the segments on the board and
      apart. */
  lemma GrowKeepsCells(head: Cell, body: seq<Cell>)
    requires AllInBounds(body) && Distinct(body)
    requires InBounds(head) && head !in body
    ensures AllInBounds([head] + body) && Distinct([head] + body)
  {
    var grown := [head] + body;
    forall a, b | 0 <= a < b < |grown| ensures grown[a] != grown[b] {
      assert grown[b] == body[b - 1];
      if a > 0 {
        assert grown[a] == body[a - 1];
      }
    }
  }

  /** Adding a head on a free board cell and dropping the tail keeps the
      segments on the board and apart, and occupies no cell but the head's that
      the body did not. */
  lemma MoveKeepsCells(head: Cell, body: seq<Cell>, food: Cell)
    requires body != []
    requires CellsOk(body, food)
    requires InBounds(head) && head !in body && head != food
    ensures CellsOk([head] + body[..|body| - 1], food)
  {
    GrowKeepsCells(head, body);
    var grown := [head] + body;
    assert [head] + body[..|body| - 1] == grown[..|grown| - 1];
  }

  /** A tick that ends the game keeps the invariant. */
  lemma CollisionInv(s: Snapshot, draws: seq<Cell>)
    requires Inv(s) && s.snake != []
    requires HitsWall(s) || HitsSelf(s)
    ensures Inv(Step(s, draws))
  {
    var r := Step(s, draws);
    HeadingInv(s);
    assert r == s.(dx := Heading(s).dx, dy := Heading(s).dy, isGameRunning := false);
    assert r.Committed() == Heading(s);
    assert ProgressOk(r.snake, r.score, r.Committed(), r.isGameRunning);
  }

  /** A tick that eats keeps the invariant. */
  lemma EatInv(s: Snapshot, draws: seq<Cell>)
    requires Inv(s) && s.snake != []
    requires AllInBounds(draws) && Eats(s) && CanPlaceFood(s, draws)
    ensures Inv(Step(s, draws))
  {
    var r := Step(s, draws);
    var grown := [NextHead(s)] + s.snake;
    var food := draws[FirstFree(draws, grown)];
    HeadingInv(s);
    GrowKeepsCells(NextHead(s), s.snake);
    assert r == s.(dx := Heading(s).dx, dy := Heading(s).dy, snake := grown, score := s.score + REWARD, food := food);
    assert r.Committed() == Heading(s);
    assert CellsOk(r.snake, r.food);
    assert ProgressOk(r.snake, r.score, r.Committed(), r.isGameRunning);
  }

  /** A tick that moves without eating keeps the invariant. */
  lemma MoveInv(s: Snapshot, draws: seq<Cell>)
    requires Inv(s) && s.snake != []
    requires !HitsWall(s) && !HitsSelf(s) && NextHead(s) != s.food
    ensures Inv(Step(s, draws))
  {
    var head := NextHead(s);
    var d := Heading(s);
    HeadingInv(s);
    MoveKeepsCells(head, s.snake, s.food);
    MovedProgress(head, s.snake, s.score, d, s.isGameRunning);
    assert Step(s, draws) == s.(dx := d.dx, dy := d.dy, snake := [head] + s.snake[..|s.snake| - 1]);
  }

  lemma MovedProgress(head: Cell, body: seq<Cell>, score: int, d: Dir, running: bool)
    requires body != [] && IsUnit(d)
    requires score >= 0 && score == REWARD * (|body| - |START_SNAKE|)
    ensures ProgressOk([head] + body[..|body| - 1], score, d, running)
  {
  }

  /** Every tick keeps the invariant. */
  lemma StepInv(s: Snapshot, draws: seq<Cell>)
    requires Inv(s) && s.snake != []
    requires AllInBounds(draws) && CanPlaceFood(s, draws)
    ensures Inv(Step(s, draws))
  {
    if HitsWall(s) || HitsSelf(s) {
      CollisionInv(s, draws);
    } else if Eats(s) {
      EatInv(s, draws);
    } else {
      MoveInv(s, draws);
    }
  }

  /** A collision, with a wall or with the body before the move, ends the game
      and leaves snake, food and score as they were; only the commit of the
      direction has happened. */
  lemma CollisionEndsGame(s: Snapshot, draws: seq<Cell>)
    requires s.snake != []
    requires HitsWall(s) || HitsSelf(s)
    ensures var r := Step(s, draws);
      !r.isGameRunning && r.snake == s.snake && r.food == s.food && r.score == s.score &&
      r.Committed() == Heading(s) && r.Pending() == s.Pending()
  {
  }

  /** Moving onto the cell the tail is about to leave still ends the game: the
      check is made against the body before the move. */
  lemma MovingIntoTailEndsGame(s: Snapshot, draws: seq<Cell>)
    requires s.snake != []
    requires NextHead(s) == s.snake[|s.snake| - 1]
    ensures !Step(s, draws).isGameRunning
  {
    assert HitsSelf(s);
  }

  /** A running game stops in a tick exactly when the new head leaves the board
      or lands on the body before the move. */
  lemma GameOverIff(s: Snapshot, draws: seq<Cell>)
    requires s.snake != [] && s.isGameRunning
    requires CanPlaceFood(s, draws)
    ensures !Step(s, draws).isGameRunning <==> HitsWall(s) || HitsSelf(s)
  {
  }

  /** A tick without collision moves the head one cell in the committed
      direction, the old segments follow in order, and the snake grows by one
      and scores REWARD exactly when the head lands on the food; otherwise the
      last segment is dropped and length and score stay. */
  lemma MoveTick(s: Snapshot, draws: seq<Cell>)
    requires DirsOk(s.Committed(), s.Pending()) && IsUnit(s.Committed()) && s.snake != []
    requires !HitsWall(s) && !HitsSelf(s) && CanPlaceFood(s, draws)
    ensures var r := Step(s, draws);
      && r.isGameRunning == s.isGameRunning
      && r.snake != [] && r.snake[0] == Move(s.snake[0], r.Committed())
      && Adjacent(s.snake[0], r.snake[0])
      && r.snake[1..] == s.snake[..|r.snake| - 1]
      && (Eats(s) ==> |r.snake| == |s.snake| + 1 && r.score == s.score + REWARD)
      && (!Eats(s) ==> |r.snake| == |s.snake| && r.score == s.score && r.food == s.food)
  {
    HeadingInv(s);
    MoveMeaning(s.snake[0], Heading(s));
    var r := Step(s, draws);
    var head := NextHead(s);
    if Eats(s) {
      StepEats(s, draws);
      assert r.snake == [head] + s.snake;
      assert r.snake[1..] == s.snake;
    } else {
      StepMoves(s, draws);
      assert r.snake == [head] + s.snake[..|s.snake| - 1];
      assert r.snake[1..] == s.snake[..|s.snake| - 1];
    }
  }

  /** The score never falls, moves only in steps of REWARD, and rises exactly
      when the snake grows. */
  lemma ScoreTick(s: Snapshot, draws: seq<Cell>)
    requires s.snake != [] && CanPlaceFood(s, draws)
    requires s.score >= 0 && s.score % REWARD == 0
    ensures var r := Step(s, draws);
      && (r.score == s.score || r.score == s.score + REWARD)
      && r.score - s.score == REWARD * (|r.snake| - |s.snake|)
      && r.score >= 0 && r.score % REWARD == 0
  {
    var r := Step(s, draws);
    if HitsWall(s) || HitsSelf(s) {
      assert r.score == s.score && r.snake == s.snake;
    } else if Eats(s) {
      assert r.score == s.score + REWARD && |r.snake| == |s.snake| + 1;
    } else {
      assert r.score == s.score && |r.snake| == |s.snake|;
    }
  }

  /** No tick turns the snake back on itself. */
  lemma NoReversal(s: Snapshot, draws: seq<Cell>)
    requires DirsOk(s.Committed(), s.Pending()) && IsUnit(s.Committed()) && s.snake != []
    requires CanPlaceFood(s, draws)
    ensures Step(s, draws).Committed() != Reverse(s.Committed())
    ensures IsUnit(Step(s, draws).Committed())
  {
    HeadingInv(s);
  }

  /** The start snake heading up with no turn pending and the food elsewhere
      moves one cell up and keeps its length and score. */
  lemma MoveUpScenario()
    ensures var s := Snapshot(START_SNAKE, Cell(0, 0), 0, 0, -1, 0, -1, true);
      Step(s, []) == s.(snake := [Cell(10, 9), Cell(10, 10), Cell(10, 11)])
  {
  }

  /** The same snake with the food just above its head grows to four segments,
      scores REWARD, and the food moves to the first draw off the grown snake. */
  lemma EatScenario()
    ensures var s := Snapshot(START_SNAKE, Cell(10, 9), 0, 0, -1, 0, -1, true);
      var draws := [Cell(10, 11), Cell(5, 5)];
      draws[1] !in [Cell(10, 9)] + START_SNAKE &&
      Step(s, draws) ==
        s.(snake := [Cell(10, 9), Cell(10, 10), Cell(10, 11), Cell(10, 12)], score := REWARD, food := Cell(5, 5))
  {
  }

  /** A snake on the left edge heading left ends the game and does not move. */
  lemma WallScenario()
    ensures var s := Snapshot([Cell(0, 10), Cell(1, 10), Cell(2, 10)], Cell(5, 5), 0, -1, 0, -1, 0, true);
      Step(s, []) == s.(isGameRunning := false)
  {
  }
}
