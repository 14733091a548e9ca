/** The checkers rule engine over a board snapshot (the `GameState` of the
    search): move legality, the mandatory-capture move generator, move
    simulation with capture and promotion, piece counting and the terminal
    test. The live board refers to the same legality predicate through a
    snapshot of its pieces. */
module Rules {

  datatype Option<T> = None | Some(value: T)

  /** A piece as the search copies it: its colour and its king flag. */
  datatype PieceData = PieceData(isWhite: bool, isKing: bool)

  datatype Square = Square(x: int, y: int)

  /** A board: the occupied squares and the piece on each; a square that is
      not a key is empty (a `null` cell of the 8x8 array). */
  type Board = map<Square, PieceData>

  /** A move from (startX, startY) to (endX, endY). The source's
      `additionalJumps` list is never filled and is not modelled. */
  datatype Move = Move(startX: int, startY: int, endX: int, endY: int)

  predicate InBounds(x: int, y: int) {
    0 <= x < 8 && 0 <= y < 8
  }

  predicate OnBoard(m: Move) {
    InBounds(m.startX, m.startY) && InBounds(m.endX, m.endY)
  }

  /** Every occupied square is a cell of the 8x8 array. */
  ghost predicate WellFormed(b: Board) {
    forall s :: s in b ==> InBounds(s.x, s.y)
  }

  function At(b: Board, x: int, y: int): Option<PieceData> {
    if Square(x, y) in b then Some(b[Square(x, y)]) else None
  }

  /** Two well-formed boards that agree on every square are equal. */
  lemma BoardExtensionality(b1: Board, b2: Board)
    requires WellFormed(b1) && WellFormed(b2)
    requires forall x, y :: InBounds(x, y) ==> At(b1, x, y) == At(b2, x, y)
    ensures b1 == b2
  {
    forall s | s in b1 ensures s in b2 && b1[s] == b2[s] {
      assert At(b1, s.x, s.y) == At(b2, s.x, s.y);
    }
    forall s | s in b2 ensures s in b1 {
      assert At(b1, s.x, s.y) == At(b2, s.x, s.y);
    }
  }

  function Abs(n: int): nat {
    if n < 0 then -n else n
  }

  /** The cell copy of `GameState.Clone`: every occupied cell of the 8x8
      array gets a fresh piece with the same colour and king flag. */
  function Clone(b: Board): (r: Board)
    ensures WellFormed(r)
    ensures forall x, y :: InBounds(x, y) ==> At(r, x, y) == At(b, x, y)
    ensures WellFormed(b) ==> r == b
  {
    map s | s in b && InBounds(s.x, s.y) :: PieceData(b[s].isWhite, b[s].isKing)
  }

  /** `IsValidMoveInState`: the destination must be on the board and empty,
      the start must hold a piece, and the step must be a one-square
      diagonal or a two-square diagonal over a piece of the other colour,
      forward for a man (towards row 7 for white, row 0 for black) and
      either way for a king. The source indexes the start cell without a
      bounds check, so an off-board start is a caller error. */
  function IsValidMoveInState(b: Board, startX: int, startY: int, endX: int, endY: int): (r: bool)
    requires InBounds(startX, startY)
    ensures r <==>
      && InBounds(endX, endY)
      && At(b, endX, endY).None?
      && At(b, startX, startY).Some?
      && var p := At(b, startX, startY).value;
         var dx := endX - startX;
         var dy := endY - startY;
         && (p.isKing || (if p.isWhite then 0 < dy else dy < 0))
         && ((Abs(dx) == 1 && Abs(dy) == 1)
             || (Abs(dx) == 2 && Abs(dy) == 2
                 && At(b, startX + dx / 2, startY + dy / 2).Some?
                 && At(b, startX + dx / 2, startY + dy / 2).value.isWhite != p.isWhite))
  {
    if endX < 0 || endX >= 8 || endY < 0 || endY >= 8 then false
    else if At(b, endX, endY).Some? then false
    else if At(b, startX, startY).None? then false
    else
      var piece := At(b, startX, startY).value;
      var deltaX := endX - startX;
      var deltaY := endY - startY;
      if Abs(deltaX) == 1 && Abs(deltaY) == 1
         && (piece.isKing || (piece.isWhite && deltaY > 0) || (!piece.isWhite && deltaY < 0))
      then true
      else if Abs(deltaX) == 2 && Abs(deltaY) == 2 then
        // both coordinates are in 0..7, so C#'s truncating division agrees with Dafny's
        var middlePiece := At(b, (startX + endX) / 2, (startY + endY) / 2);
        && middlePiece.Some? && middlePiece.value.isWhite != piece.isWhite
        && (piece.isKing || (piece.isWhite && deltaY > 0) || (!piece.isWhite && deltaY < 0))
      else false
  }

  /** A valid move goes along a diagonal, so the piece stays on squares of
      its colour (the parity of x + y). */
  lemma ValidMoveGeometry(b: Board, startX: int, startY: int, endX: int, endY: int)
    requires InBounds(startX, startY)
    ensures IsValidMoveInState(b, startX, startY, endX, endY) ==>
      Abs(endX - startX) == Abs(endY - startY) != 0 && (startX + startY) % 2 == (endX + endY) % 2
  {
  }

  /** The per-candidate test of the generator: a piece of the requested
      colour stands on the (on-board) start and the move is valid. */
  predicate Playable(b: Board, isWhite: bool, m: Move) {
    && InBounds(m.startX, m.startY)
    && At(b, m.startX, m.startY).Some?
    && At(b, m.startX, m.startY).value.isWhite == isWhite
    && IsValidMoveInState(b, m.startX, m.startY, m.endX, m.endY)
  }

  /** The generator's jump classification: two columns sideways. */
  predicate IsJump(m: Move) {
    Abs(m.endX - m.startX) == 2
  }

  /** Some piece of the colour has a capture. */
  ghost predicate JumpAvailable(b: Board, isWhite: bool) {
    exists m :: Playable(b, isWhite, m) && IsJump(m)
  }

  /** Position of an on-board move in the generator's four nested loops
      (start x, then start y, then end x, then end y). */
  function ScanIndex(m: Move): int {
    ((m.startX * 8 + m.startY) * 8 + m.endX) * 8 + m.endY
  }

  /** The move the nested loops visit at position `i`. */
  function Candidate(i: int): Move
    requires 0 <= i < 4096
  {
    Move(i / 512, i / 64 % 8, i / 8 % 8, i % 8)
  }

  /** Lexicographic order of (start x, start y, end x, end y). */
  predicate ScanBefore(a: Move, c: Move) {
    || a.startX < c.startX
    || (a.startX == c.startX && a.startY < c.startY)
    || (a.startX == c.startX && a.startY == c.startY && a.endX < c.endX)
    || (a.startX == c.startX && a.startY == c.startY && a.endX == c.endX && a.endY < c.endY)
  }

  lemma CandidateIndex(i: int)
    requires 0 <= i < 4096
    ensures OnBoard(Candidate(i)) && ScanIndex(Candidate(i)) == i
  {
  }

  lemma IndexCandidate(m: Move)
    requires OnBoard(m)
    ensures 0 <= ScanIndex(m) < 4096 && Candidate(ScanIndex(m)) == m
  {
    var i := ScanIndex(m);
    assert i == m.startX * 512 + (m.startY * 64 + m.endX * 8 + m.endY);
    DivModUnique(i, 512, m.startX, m.startY * 64 + m.endX * 8 + m.endY);
    DivModUnique(i, 64, m.startX * 8 + m.startY, m.endX * 8 + m.endY);
    DivModUnique(m.startX * 8 + m.startY, 8, m.startX, m.startY);
    DivModUnique(i, 8, m.startX * 64 + m.startY * 8 + m.endX, m.endY);
    DivModUnique(m.startX * 64 + m.startY * 8 + m.endX, 8, m.startX * 8 + m.startY, m.endX);
  }

  /** Division by the scan's radices has one quotient and one remainder. */
  lemma DivModUnique(n: int, d: int, q: int, r: int)
    requires d == 8 || d == 64 || d == 512
    requires 0 <= r < d && n == q * d + r
    ensures n / d == q && n % d == r
  {
    if d == 8 {
      assert n == q * 8 + r;
    } else if d == 64 {
      assert n == q * 64 + r;
    } else {
      assert n == q * 512 + r;
    }
  }

  /** Only the candidate at position `i` sits at position `i`. */
  lemma ScanIndexInjective(i: int)
    requires 0 <= i < 4096
    ensures forall m :: OnBoard(m) && ScanIndex(m) == i ==> m == Candidate(i)
  {
    forall m | OnBoard(m) && ScanIndex(m) == i ensures m == Candidate(i) {
      IndexCandidate(m);
    }
  }

  /** On the board, scan positions order moves lexicographically. */
  lemma ScanIndexIsLexicographic(a: Move, c: Move)
    requires OnBoard(a) && OnBoard(c)
    ensures ScanIndex(a) < ScanIndex(c) <==> ScanBefore(a, c)
  {
  }

  /** The moves of one kind (jumps, or simple moves) that the nested loops
      find at scan positions `i` and later, in scan order. */
  function ScanMoves(b: Board, isWhite: bool, jumps: bool, i: nat): (r: seq<Move>)
    decreases 4096 - i
    ensures forall k :: 0 <= k < |r| ==>
      Playable(b, isWhite, r[k]) && IsJump(r[k]) == jumps && i <= ScanIndex(r[k])
    ensures forall k, l :: 0 <= k < l < |r| ==> ScanIndex(r[k]) < ScanIndex(r[l])
    ensures forall m :: Playable(b, isWhite, m) && IsJump(m) == jumps && i <= ScanIndex(m) ==> m in r
  {
    if i >= 4096 then []
    else
      var m := Candidate(i);
      var rest := ScanMoves(b, isWhite, jumps, i + 1);
      CandidateIndex(i);
      ScanCompleteStep(b, isWhite, jumps, i, rest);
      if Playable(b, isWhite, m) && IsJump(m) == jumps then [m] + rest else rest
  }

  /** A move at scan position `i` or later is either the candidate at `i`
      or lies at a later position. */
  lemma ScanCompleteStep(b: Board, isWhite: bool, jumps: bool, i: nat, rest: seq<Move>)
    requires i < 4096
    requires forall m :: Playable(b, isWhite, m) && IsJump(m) == jumps && i + 1 <= ScanIndex(m) ==> m in rest
    ensures forall m :: Playable(b, isWhite, m) && IsJump(m) == jumps && i <= ScanIndex(m) ==>
      m in rest || m == Candidate(i)
  {
    forall m | Playable(b, isWhite, m) && IsJump(m) == jumps && i <= ScanIndex(m)
      ensures m in rest || m == Candidate(i)
    {
      if ScanIndex(m) == i {
        IndexCandidate(m);
      }
    }
  }

  /** `GenerateAllMovesFromState`: every valid move of the colour, in scan
      order; when any capture exists only the captures are returned. */
  function GenerateAllMovesFromState(b: Board, isWhite: bool): (r: seq<Move>)
    ensures forall m :: m in r <==> Playable(b, isWhite, m) && (IsJump(m) || !JumpAvailable(b, isWhite))
    ensures forall k, l :: 0 <= k < l < |r| ==> ScanBefore(r[k], r[l])
    ensures JumpAvailable(b, isWhite) ==> forall k :: 0 <= k < |r| ==> IsJump(r[k])
    ensures !JumpAvailable(b, isWhite) ==> forall k :: 0 <= k < |r| ==> !IsJump(r[k])
  {
    var jumpMoves := ScanMoves(b, isWhite, true, 0);
    var moves := ScanMoves(b, isWhite, false, 0);
    GeneratorOrder(jumpMoves);
    GeneratorOrder(moves);
    MandatoryCapture(b, isWhite, jumpMoves, moves);
    if |jumpMoves| > 0 then jumpMoves else moves
  }

  /** The capture list is non-empty exactly when a capture exists, and the
      list the generator returns holds exactly the moves it may play. */
  lemma MandatoryCapture(b: Board, isWhite: bool, jumpMoves: seq<Move>, moves: seq<Move>)
    requires forall m :: m in jumpMoves <==> Playable(b, isWhite, m) && IsJump(m)
    requires forall m :: m in moves <==> Playable(b, isWhite, m) && !IsJump(m)
    ensures |jumpMoves| > 0 <==> JumpAvailable(b, isWhite)
    ensures var r := if |jumpMoves| > 0 then jumpMoves else moves;
      forall m :: m in r <==> Playable(b, isWhite, m) && (IsJump(m) || !JumpAvailable(b, isWhite))
  {
    if |jumpMoves| > 0 {
      assert Playable(b, isWhite, jumpMoves[0]) && IsJump(jumpMoves[0]);
    }
  }

  /** The generator comes back empty exactly when the colour has no valid
      move at all: the capture filter never empties a list. */
  lemma GeneratorEmpty(b: Board, isWhite: bool)
    ensures |GenerateAllMovesFromState(b, isWhite)| == 0 <==> forall m :: !Playable(b, isWhite, m)
  {
    var r := GenerateAllMovesFromState(b, isWhite);
    if |r| > 0 {
      assert r[0] in r;
    }
    if m :| Playable(b, isWhite, m) {
      if IsJump(m) || !JumpAvailable(b, isWhite) {
        assert m in r;
      } else {
        var j :| Playable(b, isWhite, j) && IsJump(j);
        assert j in r;
      }
    }
  }

  lemma GeneratorOrder(r: seq<Move>)
    requires forall k :: 0 <= k < |r| ==> OnBoard(r[k])
    requires forall k, l :: 0 <= k < l < |r| ==> ScanIndex(r[k]) < ScanIndex(r[l])
    ensures forall k, l :: 0 <= k < l < |r| ==> ScanBefore(r[k], r[l])
  {
    forall k, l | 0 <= k < l < |r| ensures ScanBefore(r[k], r[l]) {
      ScanIndexIsLexicographic(r[k], r[l]);
    }
  }

  /** What `SimulateMoveOnState` needs to run without an exception: both
      squares on the board and a piece on the start. */
  predicate CanSimulate(b: Board, m: Move) {
    OnBoard(m) && At(b, m.startX, m.startY).Some?
  }

  /** The square a jump captures on. */
  function Midpoint(m: Move): Square {
    Square((m.startX + m.endX) / 2, (m.startY + m.endY) / 2)
  }

  /** A piece of this colour ending on this row is crowned. */
  predicate PromotionRow(isWhite: bool, y: int) {
    (isWhite && y == 7) || (!isWhite && y == 0)
  }

  /** `SimulateMoveOnState`: a copy of the board with the piece moved, the
      jumped square emptied on a two-column move, and the piece crowned on
      its far row. */
  function SimulateMoveOnState(b: Board, m: Move): (r: Board)
    requires CanSimulate(b, m)
  {
    var newState := Clone(b);
    var start := Square(m.startX, m.startY);
    var end := Square(m.endX, m.endY);
    var movingPiece := newState[start];
    var placed := (newState - {start})[end := movingPiece];
    var captured := if IsJump(m) then placed - {Midpoint(m)} else placed;
    if PromotionRow(movingPiece.isWhite, m.endY) then captured[end := movingPiece.(isKing := true)]
    else captured
  }

  /** What a simulated move does: the board stays well formed, the mover
      stands on the end square (crowned on its promotion row, and a king
      stays a king), the start square is emptied, a jump removes the piece
      it jumps over, and every other square is unchanged. */
  lemma SimulateMoveOnStateEffect(b: Board, m: Move)
    requires CanSimulate(b, m)
    ensures var r := SimulateMoveOnState(b, m);
      && WellFormed(r)
      && At(r, m.endX, m.endY).Some?
      && At(r, m.endX, m.endY).value.isWhite == At(b, m.startX, m.startY).value.isWhite
      && (At(r, m.endX, m.endY).value.isKing <==>
            At(b, m.startX, m.startY).value.isKing || PromotionRow(At(b, m.startX, m.startY).value.isWhite, m.endY))
      && ((m.startX, m.startY) != (m.endX, m.endY) ==> At(r, m.startX, m.startY).None?)
      && (IsJump(m) ==> At(r, Midpoint(m).x, Midpoint(m).y).None?)
      && (forall x, y ::
            (&& InBounds(x, y)
             && (x, y) != (m.startX, m.startY) && (x, y) != (m.endX, m.endY)
             && !(IsJump(m) && Square(x, y) == Midpoint(m)))
            ==> At(r, x, y) == At(b, x, y))
  {
  }

  /** The squares holding a piece of the colour. */
  function Owned(b: Board, isWhite: bool): set<Square> {
    set s | s in b && b[s].isWhite == isWhite
  }

  /** The number of pieces of the colour. */
  function CountPieces(b: Board, isWhite: bool): (r: nat)
    ensures r == 0 <==> forall s :: s in b ==> b[s].isWhite != isWhite
  {
    OwnedEmpty(b, isWhite);
    |Owned(b, isWhite)|
  }

  lemma OwnedEmpty(b: Board, isWhite: bool)
    ensures Owned(b, isWhite) == {} <==> forall s :: s in b ==> b[s].isWhite != isWhite
  {
    if s :| s in b && b[s].isWhite == isWhite {
      assert s in Owned(b, isWhite);
    }
  }

  /** `IsTerminalState`: one colour has no piece left. */
  function IsTerminalState(b: Board): (r: bool)
    ensures r <==> (forall s :: s in b ==> b[s].isWhite) || (forall s :: s in b ==> !b[s].isWhite)
  {
    CountPieces(b, true) == 0 || CountPieces(b, false) == 0
  }

  /** Which squares each colour holds after a valid move. */
  lemma {:induction false} OwnedAfterMove(b: Board, isWhite: bool, m: Move)
    requires WellFormed(b)
    requires Playable(b, isWhite, m)
    ensures Owned(SimulateMoveOnState(b, m), isWhite)
      == Owned(b, isWhite) - {Square(m.startX, m.startY)} + {Square(m.endX, m.endY)}
    ensures Owned(SimulateMoveOnState(b, m), !isWhite)
      == if IsJump(m) then Owned(b, !isWhite) - {Midpoint(m)} else Owned(b, !isWhite)
  {
    var r := SimulateMoveOnState(b, m);
    var start := Square(m.startX, m.startY);
    var end := Square(m.endX, m.endY);
    forall s: Square
      ensures s in Owned(r, isWhite) <==> s in Owned(b, isWhite) - {start} + {end}
      ensures s in Owned(r, !isWhite) <==>
        s in (if IsJump(m) then Owned(b, !isWhite) - {Midpoint(m)} else Owned(b, !isWhite))
    {
      assert At(r, s.x, s.y).Some? <==> s in r;
      assert At(b, s.x, s.y).Some? <==> s in b;
    }
  }

  /** A simple move keeps both piece counts; a valid jump removes exactly
      one piece, of the opponent's colour. */
  lemma {:induction false} SimulateCounts(b: Board, isWhite: bool, m: Move)
    requires WellFormed(b)
    requires Playable(b, isWhite, m)
    ensures CountPieces(SimulateMoveOnState(b, m), isWhite) == CountPieces(b, isWhite)
    ensures IsJump(m) ==> CountPieces(SimulateMoveOnState(b, m), !isWhite) == CountPieces(b, !isWhite) - 1
    ensures !IsJump(m) ==> CountPieces(SimulateMoveOnState(b, m), !isWhite) == CountPieces(b, !isWhite)
  {
    OwnedAfterMove(b, isWhite, m);
    var start := Square(m.startX, m.startY);
    var end := Square(m.endX, m.endY);
    assert start in Owned(b, isWhite);
    assert end !in Owned(b, isWhite) - {start};
    assert |Owned(b, isWhite) - {start} + {end}| == |Owned(b, isWhite)|;
    if IsJump(m) {
      assert Midpoint(m) in Owned(b, !isWhite);
    }
  }
}
