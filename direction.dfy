/** The direction buffer: key presses write the pending direction, each tick
    commits it. Key presses are checked against the committed direction only. */
module Direction {
  import opened Grid

  /** The keys the keydown switch tells apart; every other key falls through it. */
  datatype Key = ArrowUp | ArrowDown | ArrowLeft | ArrowRight | OtherKey

  /** The unit step an arrow key asks for. */
  function KeyDir(k: Key): (d: Dir)
    requires k != OtherKey
    ensures IsUnit(d)
  {
    match k
    case ArrowUp => Up
    case ArrowDown => Down
    case ArrowLeft => Left
    case ArrowRight => Right
  }

  /** Whether the keydown switch takes key `k`, written as the switch tests it:
      each arrow looks at one axis of the committed direction. */
  predicate Accepts(committed: Dir, k: Key) {
    match k
    case ArrowUp => committed.dy != 1
    case ArrowDown => committed.dy != -1
    case ArrowLeft => committed.dx != 1
    case ArrowRight => committed.dx != -1
    case OtherKey => false
  }

  /** For every value the direction variables can hold, the per-axis tests
      accept exactly the arrows whose step does not reverse the committed
      direction. */
  lemma AcceptsMeaning(committed: Dir, k: Key)
    requires IsDirection(committed)
    ensures Accepts(committed, k) <==> k != OtherKey && KeyDir(k) != Reverse(committed)
  {
    UnitSteps(committed);
  }

  /** The pending direction after one keydown event: an accepted arrow writes its
      step, anything else leaves the pending direction as it was. */
  function RequestDir(committed: Dir, pending: Dir, k: Key): Dir
  {
    if Accepts(committed, k) then KeyDir(k) else pending
  }

  /** The guard that decides whether the pending direction is committed: it
      tests each axis on its own. */
  predicate CommitGuard(committed: Dir, pending: Dir) {
    (pending.dx != 0 && pending.dx != -committed.dx) || (pending.dy != 0 && pending.dy != -committed.dy)
  }

  /** The committed direction after the start of a tick. */
  function CommitDir(committed: Dir, pending: Dir): Dir {
    if CommitGuard(committed, pending) then pending else committed
  }

  /** For every value the direction variables can hold, the per-axis guard adopts
      a pending direction that moves and does not reverse the committed one, and
      keeps the committed direction otherwise; in particular a moving snake never
      turns back on itself in one tick. */
  lemma CommitMeaning(committed: Dir, pending: Dir)
    requires IsDirection(committed) && IsDirection(pending)
    ensures CommitDir(committed, pending) ==
      if pending != Zero && pending != Reverse(committed) then pending else committed
    ensures IsUnit(committed) ==>
      IsUnit(CommitDir(committed, pending)) && CommitDir(committed, pending) != Reverse(committed)
  {
  }

  /** The pending direction after a run of keydown events between two ticks,
      in the order they arrive; the committed direction does not change in
      between. */
  function AfterKeys(committed: Dir, pending: Dir, keys: seq<Key>): Dir
    decreases keys
  {
    if keys == [] then pending
    else AfterKeys(committed, RequestDir(committed, pending, keys[0]), keys[1..])
  }

  /** The index of the last key in `keys` that the filter accepts, or -1 when it
      accepts none of them. */
  function LastAccepted(committed: Dir, keys: seq<Key>): (i: int)
    ensures -1 <= i < |keys|
    ensures i >= 0 ==> Accepts(committed, keys[i])
    ensures forall k | i < k < |keys| :: !Accepts(committed, keys[k])
  {
    if keys == [] then -1
    else
      var j := LastAccepted(committed, keys[1..]);
      if j >= 0 then j + 1
      else if Accepts(committed, keys[0]) then 0
      else -1
  }

  /** Between two ticks the pending direction may be overwritten any number of
      times: it ends as the step of the last accepted key, or unchanged if no key
      was accepted. */
  lemma {:induction false} LastAcceptedKeyWins(committed: Dir, pending: Dir, keys: seq<Key>)
    decreases keys
    ensures var i := LastAccepted(committed, keys);
      AfterKeys(committed, pending, keys) == if i < 0 then pending else KeyDir(keys[i])
  {
    if keys != [] {
      var next := RequestDir(committed, pending, keys[0]);
      LastAcceptedKeyWins(committed, next, keys[1..]);
      var j := LastAccepted(committed, keys[1..]);
      assert j >= 0 ==> keys[1..][j] == keys[j + 1];
    }
  }

  /** A pending direction that the key filter let through is always adopted by
      the next commit: the commit's own reversal test never fires after an
      accepted key. */
  lemma AcceptedKeyCommits(committed: Dir, pending: Dir, keys: seq<Key>)
    requires IsUnit(committed)
    requires LastAccepted(committed, keys) >= 0
    ensures CommitDir(committed, AfterKeys(committed, pending, keys)) == AfterKeys(committed, pending, keys)
  {
    LastAcceptedKeyWins(committed, pending, keys);
  }

  /** Moving up, Right then Left leaves Left pending (Left does not reverse Up),
      while Up then Down leaves Up pending (Down does). */
  lemma RequestScenarios()
    ensures AfterKeys(Up, Up, [ArrowRight, ArrowLeft]) == Left
    ensures AfterKeys(Up, Up, [ArrowUp, ArrowDown]) == Up
  {
  }
}
