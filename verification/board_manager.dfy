/** The live board of `BoardManager`: the `pieces` array and the flags its
    pieces carry. Tiles, highlighting, transforms and `Destroy` are
    presentation and are not modelled; every rule question is answered by
    the shared rule engine on a snapshot of the array. */
module BoardManager {
  import opened Rules

  /** A live piece: its recorded square, colour, king flag and the
      "may continue jumping" flag set by `MovePiece`. */
  datatype Piece = Piece(x: int, y: int, isWhite: bool, isKing: bool, canMultiJump: bool)

  /** The `pieces` array: occupied squares only. */
  type Pieces = map<Square, Piece>

  /** Every piece is on the board and records the square it stands on. */
  ghost predicate Consistent(pieces: Pieces) {
    forall s :: s in pieces ==> InBounds(s.x, s.y) && pieces[s].x == s.x && pieces[s].y == s.y
  }

  /** The cell of the array at `s`. */
  function Get(pieces: Pieces, s: Square): Option<Piece> {
    if s in pieces then Some(pieces[s]) else None
  }

  /** The board as the search copies it (`SimulateMove` copies every cell of
      the 8x8 array into a `PieceData`). */
  function Snapshot(pieces: Pieces): (b: Board)
    ensures WellFormed(b)
    ensures forall x, y :: InBounds(x, y) ==>
      At(b, x, y) == match Get(pieces, Square(x, y))
                     case None => None
                     case Some(p) => Some(PieceData(p.isWhite, p.isKing))
  {
    map s | s in pieces && InBounds(s.x, s.y) :: PieceData(pieces[s].isWhite, pieces[s].isKing)
  }

  // ---------------------------------------------------------------------
  // Setting up

  /** The squares a fresh piece is spawned on in row `y`, columns `x` to 7. */
  predicate SpawnedInRow(s: Square, y: int, x: int) {
    s.y == y && x <= s.x < 8 && (s.x + y) % 2 == 1
  }

  /** One pass of the inner loop of `SpawnAllPieces`: columns `x` to 7 of
      row `y`, a piece on every square with odd x + y. */
  function SpawnRow(pieces: Pieces, y: int, x: int, isWhite: bool): (r: Pieces)
    requires 0 <= x <= 8
    decreases 8 - x
    ensures forall s {:trigger Get(r, s)} ::
      Get(r, s) == if SpawnedInRow(s, y, x) then Some(Piece(s.x, s.y, isWhite, false, false)) else Get(pieces, s)
  {
    if x == 8 then pieces
    else if (x + y) % 2 == 1 then
      assert forall s :: SpawnedInRow(s, y, x) <==> s == Square(x, y) || SpawnedInRow(s, y, x + 1);
      SpawnRow(pieces[Square(x, y) := Piece(x, y, isWhite, false, false)], y, x + 1, isWhite)
    else
      assert forall s :: SpawnedInRow(s, y, x) <==> SpawnedInRow(s, y, x + 1);
      SpawnRow(pieces, y, x + 1, isWhite)
  }

  predicate SpawnedInRows(s: Square, y: int, yEnd: int) {
    y <= s.y < yEnd && 0 <= s.x < 8 && (s.x + s.y) % 2 == 1
  }

  /** The outer loop of `SpawnAllPieces`: rows `y` to `yEnd - 1`. */
  function SpawnRows(pieces: Pieces, y: int, yEnd: int, isWhite: bool): (r: Pieces)
    decreases yEnd - y
    ensures forall s {:trigger Get(r, s)} ::
      Get(r, s) == if SpawnedInRows(s, y, yEnd) then Some(Piece(s.x, s.y, isWhite, false, false)) else Get(pieces, s)
  {
    if y >= yEnd then pieces
    else
      var row := SpawnRow(pieces, y, 0, isWhite);
      assert forall s :: SpawnedInRows(s, y, yEnd) <==> SpawnedInRow(s, y, 0) || SpawnedInRows(s, y + 1, yEnd);
      SpawnRows(row, y + 1, yEnd, isWhite)
  }

  /** The squares a fresh board has a man on. */
  predicate StartingSquare(s: Square) {
    InBounds(s.x, s.y) && (s.x + s.y) % 2 == 1 && (s.y < 3 || 5 <= s.y)
  }

  /** `SpawnAllPieces` (with `SpawnPiece`'s array write): white men on the
      dark squares (odd x + y) of rows 0 to 2, black men on those of rows
      5 to 7, every other cell as it was. At `Start` the array is empty. */
  function SpawnAllPieces(pieces: Pieces): (r: Pieces)
    ensures forall s {:trigger Get(r, s)} ::
      Get(r, s) == if StartingSquare(s) then Some(Piece(s.x, s.y, s.y < 3, false, false)) else Get(pieces, s)
  {
    var white := SpawnRows(pieces, 0, 3, true);
    var r := SpawnRows(white, 5, 8, false);
    forall s ensures Get(r, s) == if StartingSquare(s) then Some(Piece(s.x, s.y, s.y < 3, false, false)) else Get(pieces, s) {
      assert Get(r, s) == if SpawnedInRows(s, 5, 8) then Some(Piece(s.x, s.y, false, false, false)) else Get(white, s);
      assert Get(white, s) == if SpawnedInRows(s, 0, 3) then Some(Piece(s.x, s.y, true, false, false)) else Get(pieces, s);
    }
    r
  }

  /** Spawning onto a consistent array keeps it consistent. */
  lemma SpawnKeepsConsistent(pieces: Pieces)
    ensures Consistent(pieces) ==> Consistent(SpawnAllPieces(pieces))
  {
    var r := SpawnAllPieces(pieces);
    if Consistent(pieces) {
      forall s | s in r ensures InBounds(s.x, s.y) && r[s].x == s.x && r[s].y == s.y {
        assert Get(r, s).Some?;
      }
    }
  }

  // ---------------------------------------------------------------------
  // Rules on the live board

  /** `GetPiece`: off the board there is nothing. */
  function GetPiece(pieces: Pieces, x: int, y: int): (r: Option<Piece>)
    ensures !InBounds(x, y) ==> r.None?
    ensures InBounds(x, y) ==> r == Get(pieces, Square(x, y))
  {
    if x < 0 || x >= 8 || y < 0 || y >= 8 then None
    else if Square(x, y) in pieces then Some(pieces[Square(x, y)])
    else None
  }

  /** Reading a cell through `GetPiece` tells whether the colour owns it. */
  lemma GetPieceOwns(pieces: Pieces, isWhite: bool, x: int, y: int)
    requires InBounds(x, y)
    ensures OwnsSquare(pieces, isWhite, x, y)
        <==> GetPiece(pieces, x, y).Some? && GetPiece(pieces, x, y).value.isWhite == isWhite
  {
  }

  /** `IsValidMove`: the shared rule, asked of the live array. */
  function IsValidMove(pieces: Pieces, startX: int, startY: int, endX: int, endY: int): (r: bool)
    requires InBounds(startX, startY)
    ensures r ==> Square(startX, startY) in pieces && Square(endX, endY) !in pieces
    ensures r ==> InBounds(endX, endY)
    ensures r ==> Abs(endX - startX) == Abs(endY - startY) && 1 <= Abs(endX - startX) <= 2
    ensures r ==> (startX + startY) % 2 == (endX + endY) % 2
  {
    ValidMoveGeometry(Snapshot(pieces), startX, startY, endX, endY);
    IsValidMoveInState(Snapshot(pieces), startX, startY, endX, endY)
  }

  /** The four jump offsets `CanJumpFrom` tries, in its order. */
  const JumpDx: seq<int> := [-2, -2, 2, 2]
  const JumpDy: seq<int> := [-2, 2, -2, 2]

  /** The body of `CanJumpFrom`'s loop for one offset: the jump is valid
      and an opposite-colour piece stands on the midpoint. */
  predicate JumpsInDirection(b: Board, x: int, y: int, i: int)
    requires InBounds(x, y) && At(b, x, y).Some? && 0 <= i < 4
  {
    var newX := x + JumpDx[i];
    var newY := y + JumpDy[i];
    && IsValidMoveInState(b, x, y, newX, newY)
    && var middle := At(b, (x + newX) / 2, (y + newY) / 2);
       middle.Some? && middle.value.isWhite != At(b, x, y).value.isWhite
  }

  /** The loop of `CanJumpFrom` from offset `i` on. */
  function JumpFromAny(b: Board, x: int, y: int, i: nat): (r: bool)
    requires InBounds(x, y) && At(b, x, y).Some? && i <= 4
    decreases 4 - i
    ensures r <==> exists j :: i <= j < 4 && JumpsInDirection(b, x, y, j)
  {
    if i == 4 then false
    else JumpsInDirection(b, x, y, i) || JumpFromAny(b, x, y, i + 1)
  }

  /** `CanJumpFrom`: the piece on (x, y), if any, has a capture. The
      source's extra midpoint test is implied by the validity test. */
  function CanJumpFrom(pieces: Pieces, x: int, y: int): (r: bool)
    requires InBounds(x, y)
    ensures r <==> exists endX, endY :: IsValidMove(pieces, x, y, endX, endY) && Abs(endX - x) == 2
  {
    JumpScanIsJumpSearch(pieces, x, y);
    JumpScan(Snapshot(pieces), x, y)
  }

  /** The body of `CanJumpFrom` on the cells it reads. */
  function JumpScan(b: Board, x: int, y: int): bool
    requires InBounds(x, y)
  {
    if At(b, x, y).None? then false else JumpFromAny(b, x, y, 0)
  }

  lemma JumpScanIsJumpSearch(pieces: Pieces, x: int, y: int)
    requires InBounds(x, y)
    ensures JumpScan(Snapshot(pieces), x, y)
        <==> exists endX, endY :: IsValidMove(pieces, x, y, endX, endY) && Abs(endX - x) == 2
  {
    if At(Snapshot(pieces), x, y).Some? {
      JumpDirections(pieces, x, y);
    }
  }

  /** A valid two-column move from (x, y) is one of the four offsets. */
  lemma JumpDirections(pieces: Pieces, x: int, y: int)
    requires InBounds(x, y) && At(Snapshot(pieces), x, y).Some?
    ensures (exists j :: 0 <= j < 4 && JumpsInDirection(Snapshot(pieces), x, y, j))
        <==> exists endX, endY :: IsValidMove(pieces, x, y, endX, endY) && Abs(endX - x) == 2
  {
    if endX, endY :| IsValidMove(pieces, x, y, endX, endY) && Abs(endX - x) == 2 {
      var j := JumpDirectionOf(pieces, x, y, endX, endY);
    }
    if j :| 0 <= j < 4 && JumpsInDirection(Snapshot(pieces), x, y, j) {
      assert IsValidMove(pieces, x, y, x + JumpDx[j], y + JumpDy[j]);
    }
  }

  /** The offset a valid two-column move takes. */
  lemma JumpDirectionOf(pieces: Pieces, x: int, y: int, endX: int, endY: int) returns (j: int)
    requires InBounds(x, y) && At(Snapshot(pieces), x, y).Some?
    requires IsValidMove(pieces, x, y, endX, endY) && Abs(endX - x) == 2
    ensures 0 <= j < 4 && JumpsInDirection(Snapshot(pieces), x, y, j)
  {
    var b := Snapshot(pieces);
    assert IsValidMoveInState(b, x, y, endX, endY);
    assert Abs(endY - y) == 2;
    j := if endX < x then (if endY < y then 0 else 1) else (if endY < y then 2 else 3);
    assert endX == x + JumpDx[j] && endY == y + JumpDy[j];
  }

  /** The array writes of `MovePiece` before the multi-jump flag: the
      piece moves and records its new square, a two-column move removes
      whatever stands on the midpoint, and a piece reaching its far row is
      crowned. */
  function MoveAndCrown(pieces: Pieces, startX: int, startY: int, endX: int, endY: int): Pieces
    requires Square(startX, startY) in pieces
  {
    var start := Square(startX, startY);
    var end := Square(endX, endY);
    var piece := pieces[start].(x := endX, y := endY);
    var placed := (pieces - {start})[end := piece];
    var captured :=
      if Abs(endX - startX) == 2 then placed - {Square((startX + endX) / 2, (startY + endY) / 2)}
      else placed;
    if PromotionRow(piece.isWhite, endY) then captured[end := piece.(isKing := true)] else captured
  }

  /** The array writes of `MovePiece` do what the search's simulation does. */
  lemma {:induction false} MoveAndCrownIsSimulation(pieces: Pieces, startX: int, startY: int, endX: int, endY: int)
    requires InBounds(startX, startY) && InBounds(endX, endY)
    requires Square(startX, startY) in pieces
    ensures CanSimulate(Snapshot(pieces), Move(startX, startY, endX, endY))
    ensures Snapshot(MoveAndCrown(pieces, startX, startY, endX, endY))
         == SimulateMoveOnState(Snapshot(pieces), Move(startX, startY, endX, endY))
  {
    var m := Move(startX, startY, endX, endY);
    var lhs := Snapshot(MoveAndCrown(pieces, startX, startY, endX, endY));
    var rhs := SimulateMoveOnState(Snapshot(pieces), m);
    forall x, y | InBounds(x, y) ensures At(lhs, x, y) == At(rhs, x, y) {
      MoveAndCrownAt(pieces, startX, startY, endX, endY, x, y);
    }
    SimulateMoveOnStateEffect(Snapshot(pieces), m);
    BoardExtensionality(lhs, rhs);
  }

  /** `MoveAndCrownIsSimulation` square by square. */
  lemma MoveAndCrownAt(pieces: Pieces, startX: int, startY: int, endX: int, endY: int, x: int, y: int)
    requires InBounds(startX, startY) && InBounds(endX, endY) && InBounds(x, y)
    requires Square(startX, startY) in pieces
    ensures CanSimulate(Snapshot(pieces), Move(startX, startY, endX, endY))
    ensures At(Snapshot(MoveAndCrown(pieces, startX, startY, endX, endY)), x, y)
         == At(SimulateMoveOnState(Snapshot(pieces), Move(startX, startY, endX, endY)), x, y)
  {
    var m := Move(startX, startY, endX, endY);
    var c := MoveAndCrown(pieces, startX, startY, endX, endY);
    var b := Snapshot(pieces);
    var r := SimulateMoveOnState(b, m);
    var p := pieces[Square(startX, startY)];
    SimulateMoveOnStateEffect(b, m);
    if (x, y) == (endX, endY) {
      MoveAndCrownFrame(pieces, startX, startY, endX, endY);
      assert At(r, x, y) == Some(PieceData(p.isWhite, p.isKing || PromotionRow(p.isWhite, endY)));
    } else if (x, y) == (startX, startY) || (IsJump(m) && Square(x, y) == Midpoint(m)) {
      MoveAndCrownVacates(pieces, startX, startY, endX, endY, x, y);
    } else {
      MoveAndCrownKeeps(pieces, startX, startY, endX, endY, x, y);
    }
  }

  /** `MoveAndCrown` empties the start square and the captured square. */
  lemma MoveAndCrownVacates(pieces: Pieces, startX: int, startY: int, endX: int, endY: int, x: int, y: int)
    requires Square(startX, startY) in pieces && (x, y) != (endX, endY)
    requires (x, y) == (startX, startY) || (IsJump(Move(startX, startY, endX, endY)) && Square(x, y) == Midpoint(Move(startX, startY, endX, endY)))
    ensures Square(x, y) !in MoveAndCrown(pieces, startX, startY, endX, endY)
  {
  }

  /** `MoveAndCrown` leaves every other square as it was. */
  lemma MoveAndCrownKeeps(pieces: Pieces, startX: int, startY: int, endX: int, endY: int, x: int, y: int)
    requires Square(startX, startY) in pieces && (x, y) != (endX, endY) && (x, y) != (startX, startY)
    requires !(IsJump(Move(startX, startY, endX, endY)) && Square(x, y) == Midpoint(Move(startX, startY, endX, endY)))
    ensures Get(MoveAndCrown(pieces, startX, startY, endX, endY), Square(x, y)) == Get(pieces, Square(x, y))
  {
  }

  /** Only the moved piece changes; every piece that stays keeps its flags. */
  lemma MoveAndCrownFrame(pieces: Pieces, startX: int, startY: int, endX: int, endY: int)
    requires Square(startX, startY) in pieces
    ensures var c := MoveAndCrown(pieces, startX, startY, endX, endY);
      var p := pieces[Square(startX, startY)];
      && Square(endX, endY) in c
      && c[Square(endX, endY)] == p.(x := endX, y := endY, isKing := p.isKing || PromotionRow(p.isWhite, endY))
      && forall s :: s in c && s != Square(endX, endY) ==> s in pieces && c[s] == pieces[s]
  {
  }

  /** The multi-jump flag is invisible to the rules. */
  lemma SnapshotIgnoresFlag(pieces: Pieces, s: Square, flag: bool)
    requires s in pieces
    ensures Snapshot(pieces[s := pieces[s].(canMultiJump := flag)]) == Snapshot(pieces)
  {
    var r := pieces[s := pieces[s].(canMultiJump := flag)];
    forall x, y | InBounds(x, y) ensures At(Snapshot(r), x, y) == At(Snapshot(pieces), x, y) {
      assert Get(r, Square(x, y)).Some? <==> Get(pieces, Square(x, y)).Some?;
    }
    BoardExtensionality(Snapshot(r), Snapshot(pieces));
  }

  /** Setting the moved piece's multi-jump flag, whatever its value, keeps
      the rules' view of the move, the moved piece and every other piece. */
  lemma {:induction false} FlagAfterMove(pieces: Pieces, startX: int, startY: int, endX: int, endY: int, flag: bool)
    requires InBounds(startX, startY) && InBounds(endX, endY)
    requires Square(startX, startY) in pieces
    ensures var c := MoveAndCrown(pieces, startX, startY, endX, endY);
      var end := Square(endX, endY);
      var r := c[end := c[end].(canMultiJump := flag)];
      var p := pieces[Square(startX, startY)];
      && Snapshot(r) == SimulateMoveOnState(Snapshot(pieces), Move(startX, startY, endX, endY))
      && Snapshot(r) == Snapshot(c)
      && end in r
      && r[end] == Piece(endX, endY, p.isWhite, p.isKing || PromotionRow(p.isWhite, endY), flag)
      && (forall s :: s in r && s != end ==> s in pieces && r[s] == pieces[s])
  {
    var end := Square(endX, endY);
    var c := MoveAndCrown(pieces, startX, startY, endX, endY);
    MoveAndCrownIsSimulation(pieces, startX, startY, endX, endY);
    MoveAndCrownFrame(pieces, startX, startY, endX, endY);
    SnapshotIgnoresFlag(c, end, flag);
  }

  /** The moved piece is stored under its new square, so a consistent
      dictionary stays consistent. */
  lemma {:induction false} FlagAfterMoveConsistent(pieces: Pieces, startX: int, startY: int, endX: int, endY: int, flag: bool)
    requires InBounds(startX, startY) && InBounds(endX, endY)
    requires Square(startX, startY) in pieces
    ensures var c := MoveAndCrown(pieces, startX, startY, endX, endY);
      var end := Square(endX, endY);
      Consistent(pieces) ==> Consistent(c[end := c[end].(canMultiJump := flag)])
  {
    var end := Square(endX, endY);
    var c := MoveAndCrown(pieces, startX, startY, endX, endY);
    var r := c[end := c[end].(canMultiJump := flag)];
    FlagAfterMove(pieces, startX, startY, endX, endY, flag);
    if Consistent(pieces) {
      forall s | s in r ensures InBounds(s.x, s.y) && r[s].x == s.x && r[s].y == s.y {
        if s != end {
          assert s in pieces && r[s] == pieces[s];
        }
      }
    }
  }

  /** `MovePiece`, the array part. What the rules see afterwards is exactly
      the search's simulation of the move (piece moved, jumped piece
      removed, promotion on the far row); the moved piece records its new
      square and may continue jumping exactly when the move was a jump and
      it can jump again from where it landed; every other piece is left as
      it was. */
  function MovePiece(pieces: Pieces, startX: int, startY: int, endX: int, endY: int): (r: Pieces)
    requires InBounds(startX, startY) && InBounds(endX, endY)
    requires Square(startX, startY) in pieces
    ensures Snapshot(r) == SimulateMoveOnState(Snapshot(pieces), Move(startX, startY, endX, endY))
    ensures var p := pieces[Square(startX, startY)];
      && Square(endX, endY) in r
      && r[Square(endX, endY)] == Piece(endX, endY, p.isWhite, p.isKing || PromotionRow(p.isWhite, endY),
                                        Abs(endX - startX) == 2 && CanJumpFrom(r, endX, endY))
    ensures forall s :: s in r && s != Square(endX, endY) ==> s in pieces && r[s] == pieces[s]
    ensures Consistent(pieces) ==> Consistent(r)
  {
    var crowned := MoveAndCrown(pieces, startX, startY, endX, endY);
    var flag := Abs(endX - startX) == 2 && CanJumpFrom(crowned, endX, endY);
    FlagAfterMove(pieces, startX, startY, endX, endY, flag);
    FlagAfterMoveConsistent(pieces, startX, startY, endX, endY, flag);
    crowned[Square(endX, endY) := crowned[Square(endX, endY)].(canMultiJump := flag)]
  }

  // ---------------------------------------------------------------------
  // Counting and the end of the game

  /** `CountPieces`: the pieces of the colour on the board. */
  function CountPieces(pieces: Pieces, isWhite: bool): (r: nat)
    ensures r == 0 <==> forall s :: s in pieces && InBounds(s.x, s.y) ==> pieces[s].isWhite != isWhite
  {
    Rules.CountPieces(Snapshot(pieces), isWhite)
  }

  /** A move accepted by `IsValidMove` never changes the mover's count; a
      jump lowers the opponent's count by exactly one and a simple move
      keeps it. */
  lemma {:induction false} MovePieceCounts(pieces: Pieces, startX: int, startY: int, endX: int, endY: int)
    requires InBounds(startX, startY)
    requires IsValidMove(pieces, startX, startY, endX, endY)
    ensures var mover := pieces[Square(startX, startY)].isWhite;
      var r := MovePiece(pieces, startX, startY, endX, endY);
      && CountPieces(r, mover) == CountPieces(pieces, mover)
      && CountPieces(r, !mover) == CountPieces(pieces, !mover) - (if Abs(endX - startX) == 2 then 1 else 0)
  {
    var m := Move(startX, startY, endX, endY);
    var mover := pieces[Square(startX, startY)].isWhite;
    SimulateCounts(Snapshot(pieces), mover, m);
  }

  /** The scan of `HasValidMoves` from loop position `i` on. */
  function HasValidMovesFrom(b: Board, isWhite: bool, i: nat): (r: bool)
    decreases 4096 - i
    ensures r <==> exists m :: Playable(b, isWhite, m) && i <= ScanIndex(m)
  {
    if i >= 4096 then false
    else
      CandidateIndex(i);
      ScanIndexInjective(i);
      Playable(b, isWhite, Candidate(i)) || HasValidMovesFrom(b, isWhite, i + 1)
  }

  /** A piece of the colour stands on (x, y). */
  predicate OwnsSquare(pieces: Pieces, isWhite: bool, x: int, y: int) {
    InBounds(x, y) && Square(x, y) in pieces && pieces[Square(x, y)].isWhite == isWhite
  }

  /** `HasValidMoves`: some piece of the colour has a destination that
      `IsValidMove` accepts. */
  function HasValidMoves(pieces: Pieces, isWhite: bool): (r: bool)
    ensures r <==> exists startX, startY, endX, endY ::
      OwnsSquare(pieces, isWhite, startX, startY) && IsValidMove(pieces, startX, startY, endX, endY)
  {
    LiveMovesArePlayable(pieces, isWhite);
    HasValidMovesFrom(Snapshot(pieces), isWhite, 0)
  }

  /** A live piece's valid move is exactly a playable move of the snapshot. */
  lemma LiveMovesArePlayable(pieces: Pieces, isWhite: bool)
    ensures (exists m :: Playable(Snapshot(pieces), isWhite, m) && 0 <= ScanIndex(m))
      <==> exists startX, startY, endX, endY ::
        OwnsSquare(pieces, isWhite, startX, startY) && IsValidMove(pieces, startX, startY, endX, endY)
  {
    var b := Snapshot(pieces);
    if m :| Playable(b, isWhite, m) && 0 <= ScanIndex(m) {
      assert OwnsSquare(pieces, isWhite, m.startX, m.startY);
      assert IsValidMove(pieces, m.startX, m.startY, m.endX, m.endY);
    }
    if startX, startY, endX, endY :|
        OwnsSquare(pieces, isWhite, startX, startY) && IsValidMove(pieces, startX, startY, endX, endY) {
      var m := Move(startX, startY, endX, endY);
      assert Playable(b, isWhite, m) && 0 <= ScanIndex(m);
    }
  }

  datatype Winner = White | Black

  /** `CheckWinCondition`, in the source's order and whoever is to move:
      a colour with no pieces loses, then a colour with no valid move
      loses, white being asked first each time; `None` while the game goes
      on. */
  function CheckWinCondition(pieces: Pieces): (r: Option<Winner>)
    ensures r == Some(Black) <==>
      CountPieces(pieces, true) == 0 || (CountPieces(pieces, false) != 0 && !HasValidMoves(pieces, true))
    ensures r == Some(White) <==>
      && CountPieces(pieces, true) != 0
      && (CountPieces(pieces, false) == 0 || (HasValidMoves(pieces, true) && !HasValidMoves(pieces, false)))
  {
    var whitePieces := CountPieces(pieces, true);
    var blackPieces := CountPieces(pieces, false);
    if whitePieces == 0 then Some(Black)
    else if blackPieces == 0 then Some(White)
    else if !HasValidMoves(pieces, true) then Some(Black)
    else if !HasValidMoves(pieces, false) then Some(White)
    else None
  }

  /** The win check never lets play go on past a position the search
      treats as over, and while it reports no winner both colours have a
      non-empty move list. */
  lemma WinCheckCoversTerminal(pieces: Pieces)
    ensures IsTerminalState(Snapshot(pieces)) ==> CheckWinCondition(pieces).Some?
    ensures CheckWinCondition(pieces) == None ==>
      && !IsTerminalState(Snapshot(pieces))
      && |GenerateAllMovesFromState(Snapshot(pieces), true)| > 0
      && |GenerateAllMovesFromState(Snapshot(pieces), false)| > 0
  {
    var b := Snapshot(pieces);
    GeneratorEmpty(b, true);
    GeneratorEmpty(b, false);
    if CheckWinCondition(pieces) == None {
      assert HasValidMovesFrom(b, true, 0) && HasValidMovesFrom(b, false, 0);
    }
  }

  /** The position `SpawnAllPieces` sets up on an empty array: a man on
      every starting square, white in rows 0 to 2 and black in rows 5 to 7,
      and nothing else. */
  ghost predicate FreshBoard(pieces: Pieces) {
    forall s {:trigger Get(pieces, s)} ::
      Get(pieces, s) == if StartingSquare(s) then Some(Piece(s.x, s.y, s.y < 3, false, false)) else None
  }

  /** `Start` spawns onto an empty array, which gives the fresh board. The
      empty array is a parameter so that the solver does not unfold
      `SpawnAllPieces` on a constant. */
  lemma SpawnOnEmptyIsFresh(empty: Pieces)
    requires empty == map[]
    ensures FreshBoard(SpawnAllPieces(empty)) && Consistent(SpawnAllPieces(empty))
  {
    var r := SpawnAllPieces(empty);
    forall s ensures Get(r, s) == if StartingSquare(s) then Some(Piece(s.x, s.y, s.y < 3, false, false)) else None {
      assert Get(empty, s) == None;
    }
    SpawnKeepsConsistent(empty);
  }

  /** On a fresh board both sides have pieces and moves, so the game is on:
      the white man on (1, 2) can step to (0, 3) and the black man on
      (0, 5) to (1, 4). */
  lemma StartingPositionPlays(pieces: Pieces)
    requires FreshBoard(pieces)
    ensures CheckWinCondition(pieces) == None
  {
    StartingStep(pieces, 1, 2, 0, 3);
    StartingStep(pieces, 0, 5, 1, 4);
    assert Get(pieces, Square(1, 2)).Some? && Get(pieces, Square(0, 5)).Some?;
  }

  /** A man of a fresh board with an empty square diagonally ahead can step
      onto it. */
  lemma StartingStep(pieces: Pieces, x: int, y: int, endX: int, endY: int)
    requires FreshBoard(pieces)
    requires InBounds(x, y) && StartingSquare(Square(x, y))
    requires InBounds(endX, endY) && !StartingSquare(Square(endX, endY))
    requires Abs(endX - x) == 1 && endY - y == (if y < 3 then 1 else -1)
    ensures OwnsSquare(pieces, y < 3, x, y) && IsValidMove(pieces, x, y, endX, endY)
  {
    var b := Snapshot(pieces);
    assert Get(pieces, Square(x, y)) == Some(Piece(x, y, y < 3, false, false));
    assert Get(pieces, Square(endX, endY)) == None;
    assert At(b, x, y) == Some(PieceData(y < 3, false)) && At(b, endX, endY) == None;
    assert IsValidMoveInState(b, x, y, endX, endY);
  }

  /** The white men's starting squares, row by row. */
  const WhiteStart: set<Square> :=
    {Square(1, 0), Square(3, 0), Square(5, 0), Square(7, 0),
     Square(0, 1), Square(2, 1), Square(4, 1), Square(6, 1),
     Square(1, 2), Square(3, 2), Square(5, 2), Square(7, 2)}

  /** The black men's starting squares, row by row. */
  const BlackStart: set<Square> :=
    {Square(0, 5), Square(2, 5), Square(4, 5), Square(6, 5),
     Square(1, 6), Square(3, 6), Square(5, 6), Square(7, 6),
     Square(0, 7), Square(2, 7), Square(4, 7), Square(6, 7)}

  lemma WhiteStartSize()
    ensures |WhiteStart| == 12
  {
  }

  lemma BlackStartSize()
    ensures |BlackStart| == 12
  {
  }

  lemma StartSquares(s: Square)
    ensures StartingSquare(s) && s.y < 3 <==> s in WhiteStart
    ensures StartingSquare(s) && s.y >= 3 <==> s in BlackStart
  {
    if StartingSquare(s) {
      if s.y == 0 || s.y == 2 || s.y == 6 {
        assert s.x == 1 || s.x == 3 || s.x == 5 || s.x == 7;
      } else {
        assert s.x == 0 || s.x == 2 || s.x == 4 || s.x == 6;
      }
    }
  }

  /** A fresh board holds twelve men of each colour. */
  lemma StartingCounts(pieces: Pieces)
    requires FreshBoard(pieces)
    ensures CountPieces(pieces, true) == 12 && CountPieces(pieces, false) == 12
  {
    var b := Snapshot(pieces);
    forall s ensures (s in Owned(b, true) <==> s in WhiteStart) && (s in Owned(b, false) <==> s in BlackStart) {
      StartSquares(s);
      assert Get(pieces, s) == if StartingSquare(s) then Some(Piece(s.x, s.y, s.y < 3, false, false)) else None;
      if s in b {
        assert At(b, s.x, s.y) == Some(b[s]);
      }
    }
    assert Owned(b, true) == WhiteStart;
    assert Owned(b, false) == BlackStart;
    WhiteStartSize();
    BlackStartSize();
  }
}
