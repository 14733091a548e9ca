/** The turn bookkeeping of `GameManager`: the side to move, the turn
    counter (a C# `int`) and the maze trigger that fires every six
    half-turns. The turn banner and the maze itself are presentation. */
module GameManager {

  const IntMin: int := -0x8000_0000
  const IntMax: int := 0x7FFF_FFFF

  /** The values a C# `int` can hold. */
  predicate IsInt32(n: int) {
    IntMin <= n <= IntMax
  }

  /** `n++` on a C# `int` (unchecked): one more, wrapping from the largest
      value to the smallest. */
  function Increment(n: int): (r: int)
    requires IsInt32(n)
    ensures IsInt32(r)
    ensures n < IntMax ==> r == n + 1
    ensures r == n + 1 || (n == IntMax && r == IntMin)
  {
    if n == IntMax then IntMin else n + 1
  }

  /** C#'s `%` on `int`: the remainder of division truncated toward zero.
      It is smaller than the divisor in size and has the sign of `a`. */
  function CsRem(a: int, b: int): (r: int)
    requires b > 0
    ensures -b < r < b
    ensures a >= 0 ==> r >= 0
    ensures a <= 0 ==> r <= 0
  {
    if a >= 0 then a % b else -((-a) % b)
  }

  /** A truncated remainder by six is zero exactly on the multiples of six,
      negative ones included. */
  lemma CsRemSix(a: int)
    ensures CsRem(a, 6) == 0 <==> a % 6 == 0
  {
    if a < 0 {
      var q := (-a) / 6;
      var r := (-a) % 6;
      if r == 0 {
        RemSix(a, -q, 0);
      } else {
        RemSix(a, -q - 1, 6 - r);
      }
    }
  }

  /** The remainder by six of `6 * q + r` is `r`. */
  lemma RemSix(n: int, q: int, r: int)
    requires 0 <= r < 6 && n == 6 * q + r
    ensures n % 6 == r
  {
  }

  /** The two fields of `GameManager` that `EndTurn` touches. */
  datatype TurnState = TurnState(isWhiteTurn: bool, turnCount: int)

  /** A fresh `GameManager`: white to move, no turn played. */
  function Initial(): (s: TurnState)
    ensures s.isWhiteTurn && s.turnCount == 0
    ensures Invariant(s)
  {
    TurnState(true, 0)
  }

  /** What `EndTurn` leaves behind, and whether it called `TriggerMaze`. */
  datatype EndTurnResult = EndTurnResult(state: TurnState, mazeTriggered: bool)

  /** `EndTurn`: the other side is to move, the counter goes up by one, and
      the maze fires exactly when the new count is a multiple of six
      (negative counts after a wrap included). */
  function EndTurn(s: TurnState): (r: EndTurnResult)
    requires IsInt32(s.turnCount)
    ensures r.state.isWhiteTurn == !s.isWhiteTurn
    ensures IsInt32(r.state.turnCount)
    ensures s.turnCount < IntMax ==> r.state.turnCount == s.turnCount + 1
    ensures s.turnCount == IntMax ==> r.state.turnCount == IntMin
    ensures r.mazeTriggered <==> r.state.turnCount % 6 == 0
  {
    var next := TurnState(!s.isWhiteTurn, Increment(s.turnCount));
    CsRemSix(next.turnCount);
    EndTurnResult(next, CsRem(next.turnCount, 6) == 0)
  }

  /** White is to move exactly when the counter is even. (The source's
      truncated `%` and Dafny's agree on whether a remainder is zero.) */
  ghost predicate Invariant(s: TurnState) {
    IsInt32(s.turnCount) && (s.isWhiteTurn <==> s.turnCount % 2 == 0)
  }

  /** `EndTurn` keeps white to move exactly on even counts, across the wrap
      from the largest `int` to the smallest as well. */
  lemma EndTurnPreservesInvariant(s: TurnState)
    requires Invariant(s)
    ensures Invariant(EndTurn(s).state)
  {
    if s.turnCount == IntMax {
      assert EndTurn(s).state.turnCount == IntMin;
    }
  }

  /** Two turns in a row give the move back to the same side and advance
      the counter by two, wrapping past the largest `int` to the smallest. */
  lemma TwoTurnsRestoreSide(s: TurnState)
    requires IsInt32(s.turnCount)
    ensures var r := EndTurn(EndTurn(s).state).state;
      && r.isWhiteTurn == s.isWhiteTurn
      && (s.turnCount < IntMax - 1 ==> r.turnCount == s.turnCount + 2)
      && (s.turnCount == IntMax - 1 ==> r.turnCount == IntMin)
      && (s.turnCount == IntMax ==> r.turnCount == IntMin + 1)
  {
  }

  /** The state after `n` calls of `EndTurn` on a fresh `GameManager`. */
  function AfterTurns(n: nat): (s: TurnState)
    ensures IsInt32(s.turnCount)
  {
    if n == 0 then Initial() else EndTurn(AfterTurns(n - 1)).state
  }

  /** However many turns are played, white is to move exactly when the
      counter is even. */
  lemma {:induction false} InvariantAlways(n: nat)
    ensures Invariant(AfterTurns(n))
  {
    if n > 0 {
      InvariantAlways(n - 1);
      EndTurnPreservesInvariant(AfterTurns(n - 1));
    }
  }

  /** Whether the `n`-th call of `EndTurn` triggers the maze. */
  function MazeFires(n: nat): bool
    requires n >= 1
  {
    EndTurn(AfterTurns(n - 1)).mazeTriggered
  }

  /** Until the counter wraps, after `n` turns it holds `n` and white is to
      move exactly when `n` is even. */
  lemma {:induction false} AfterTurnsCount(n: nat)
    requires n <= IntMax
    ensures AfterTurns(n) == TurnState(n % 2 == 0, n)
  {
    if n > 0 {
      AfterTurnsCount(n - 1);
      var prev := AfterTurns(n - 1);
      assert prev.turnCount == n - 1 < IntMax;
      assert EndTurn(prev).state == TurnState(!prev.isWhiteTurn, n);
      RemTwo(n);
    }
  }

  /** Consecutive numbers have opposite parity. */
  lemma RemTwo(n: int)
    ensures (n % 2 == 0) == ((n - 1) % 2 != 0)
  {
  }

  /** The maze fires on the sixth, twelfth, eighteenth ... call of
      `EndTurn`, and on no other, until the counter wraps. */
  lemma MazeCadence(n: nat)
    requires 1 <= n <= IntMax
    ensures MazeFires(n) <==> n % 6 == 0
  {
    AfterTurnsCount(n - 1);
  }
}
