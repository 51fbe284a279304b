/** Food placement: retry random cells until one is off the snake. Each retry
    draws one cell; the stream of draws is a parameter, as within the game each
    draw is a pair of `Math.random` results scaled to the board. */
module Food {
  import opened Grid

  /** The scan both collision checks make: walk the segments in order and stop
      at the first one on cell `c`. */
  method Contains(body: seq<Cell>, c: Cell) returns (found: bool)
    ensures found <==> c in body
  {
    for i := 0 to |body|
      invariant forall j | 0 <= j < i :: body[j] != c
    {
      if body[i].x == c.x && body[i].y == c.y {
        return true;
      }
    }
    return false;
  }

  /** Some draw of the stream lands off the snake, so the retry loop stops. */
  predicate HasFreeDraw(draws: seq<Cell>, body: seq<Cell>) {
    exists i | 0 <= i < |draws| :: draws[i] !in body
  }

  /** The retry that ends the loop: the first draw off the snake. */
  function FirstFree(draws: seq<Cell>, body: seq<Cell>): (i: nat)
    requires HasFreeDraw(draws, body)
    ensures i < |draws| && draws[i] !in body
    ensures forall j | 0 <= j < i :: draws[j] in body
  {
    if draws[0] !in body then 0
    else
      assert HasFreeDraw(draws[1..], body) by {
        var k :| 0 <= k < |draws| && draws[k] !in body;
        assert draws[1..][k - 1] == draws[k];
      }
      1 + FirstFree(draws[1..], body)
  }

  /** The retry loop can only stop while the snake leaves a board cell free, that
      is while it is shorter than the board has cells. */
  lemma PlacementNeedsRoom(draws: seq<Cell>, body: seq<Cell>)
    requires AllInBounds(draws) && HasFreeDraw(draws, body)
    requires AllInBounds(body) && Distinct(body)
    ensures |body| < TILE_COUNT * TILE_COUNT
  {
    var i := FirstFree(draws, body);
    assert InBounds(draws[i]) && draws[i] !in body;
    FreeCellIff(body);
  }
}
