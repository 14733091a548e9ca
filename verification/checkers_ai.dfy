/** The search of `CheckersAI`: the static evaluation of a board, minimax
    with alpha-beta cutoffs over the shared rule engine, and the root move
    choice for black. Scores are the source's float scores multiplied by
    200, which makes every one of them an integer. */
module CheckersAI {
  import opened Rules
  import opened Scores
  import opened AlphaBeta
  import BoardManager

  // ---------------------------------------------------------------------
  // The live-board twins

  /** Some piece of the colour on the live array has a jump. */
  ghost predicate LiveJumpAvailable(pieces: BoardManager.Pieces, isWhite: bool) {
    exists m :: LiveMove(pieces, isWhite, m) && IsJump(m)
  }

  /** The per-candidate test of `GenerateAllMoves`: `GetPiece` finds a piece
      of the colour on the start and `IsValidMove` accepts the move. */
  predicate LiveMove(pieces: BoardManager.Pieces, isWhite: bool, m: Move) {
    && BoardManager.OwnsSquare(pieces, isWhite, m.startX, m.startY)
    && BoardManager.IsValidMove(pieces, m.startX, m.startY, m.endX, m.endY)
  }

  /** A live move is exactly a playable move of the snapshot. */
  lemma LiveMoveIsPlayable(pieces: BoardManager.Pieces, isWhite: bool, m: Move)
    ensures LiveMove(pieces, isWhite, m) <==> Playable(BoardManager.Snapshot(pieces), isWhite, m)
  {
  }

  /** `GenerateAllMoves`: the generator asked of the live array. It lists
      the live moves of the colour, only jumps when some piece can jump,
      in scan order. */
  function GenerateAllMoves(pieces: BoardManager.Pieces, isWhite: bool): (r: seq<Move>)
    ensures forall m :: m in r <==> LiveMove(pieces, isWhite, m) && (IsJump(m) || !LiveJumpAvailable(pieces, isWhite))
    ensures forall k, l :: 0 <= k < l < |r| ==> ScanBefore(r[k], r[l])
    ensures LiveJumpAvailable(pieces, isWhite) ==> forall k :: 0 <= k < |r| ==> IsJump(r[k])
    ensures !LiveJumpAvailable(pieces, isWhite) ==> forall k :: 0 <= k < |r| ==> !IsJump(r[k])
    ensures forall k :: 0 <= k < |r| ==> Simulable(pieces, r[k])
  {
    var b := BoardManager.Snapshot(pieces);
    forall m ensures LiveMove(pieces, isWhite, m) <==> Playable(b, isWhite, m) {
      LiveMoveIsPlayable(pieces, isWhite, m);
    }
    assert LiveJumpAvailable(pieces, isWhite) <==> JumpAvailable(b, isWhite);
    var r := GenerateAllMovesFromState(b, isWhite);
    assert forall k :: 0 <= k < |r| ==> r[k] in r;
    r
  }

  /** `SimulateMove`: the search's copy of the live array with the move
      applied. It is what the rules would see after `MovePiece`. */
  function SimulateMove(pieces: BoardManager.Pieces, m: Move): (r: Board)
    requires OnBoard(m) && Square(m.startX, m.startY) in pieces
    ensures r == BoardManager.Snapshot(BoardManager.MovePiece(pieces, m.startX, m.startY, m.endX, m.endY))
  {
    SimulateMoveOnState(BoardManager.Snapshot(pieces), m)
  }

  // ---------------------------------------------------------------------
  // Evaluation

  /** One piece's value, times 200: 600 for a man and 1000 for a king; 20
      per row a man has advanced; 5 for each half-square it is nearer the
      centre than a corner; 40 off on an edge. Every piece is worth
      something, and the value is symmetric under swapping the colour and
      mirroring the row. */
  function PieceValue(p: PieceData, x: int, y: int): (v: int)
    requires InBounds(x, y)
    ensures 560 <= v <= 1060
    ensures !p.isKing ==> v <= 760
  {
    var base := if p.isKing then 1000 else 600;
    var advance := if p.isKing then 0 else if p.isWhite then 20 * y else 20 * (7 - y);
    var centre := 5 * (14 - Abs(2 * x - 7) - Abs(2 * y - 7));
    var edge := if x == 0 || x == 7 || y == 0 || y == 7 then 40 else 0;
    base + advance + centre - edge
  }

  /** What the square adds to the score: white pieces count for white,
      black pieces against. */
  function Contribution(b: Board, x: int, y: int): (c: int)
    requires InBounds(x, y)
    ensures At(b, x, y).None? ==> c == 0
    ensures At(b, x, y).Some? && At(b, x, y).value.isWhite ==> 560 <= c <= 1060
    ensures At(b, x, y).Some? && !At(b, x, y).value.isWhite ==> -1060 <= c <= -560
  {
    match At(b, x, y)
    case None => 0
    case Some(p) => if p.isWhite then PieceValue(p, x, y) else -PieceValue(p, x, y)
  }

  /** The inner loop of `EvaluateBoard`: rows 0 to n-1 of column x. */
  function ColumnSum(b: Board, x: int, n: nat): int
    requires 0 <= x < 8 && n <= 8
  {
    if n == 0 then 0 else ColumnSum(b, x, n - 1) + Contribution(b, x, n - 1)
  }

  /** The outer loop of `EvaluateBoard`: columns 0 to n-1. */
  function BoardSum(b: Board, n: nat): int
    requires n <= 8
  {
    if n == 0 then 0 else BoardSum(b, n - 1) + ColumnSum(b, n - 1, 8)
  }

  /** `EvaluateBoard`: white's material and position minus black's. */
  function EvaluateBoard(b: Board): (score: int)
    ensures (forall s :: s in b ==> b[s].isWhite) ==> score >= 0
    ensures (forall s :: s in b ==> !b[s].isWhite) ==> score <= 0
  {
    EvaluateSigns(b, 8);
    BoardSum(b, 8)
  }

  /** A board with pieces of one colour only scores on that colour's side. */
  lemma {:induction false} EvaluateSigns(b: Board, n: nat)
    requires n <= 8
    ensures (forall s :: s in b ==> b[s].isWhite) ==> BoardSum(b, n) >= 0
    ensures (forall s :: s in b ==> !b[s].isWhite) ==> BoardSum(b, n) <= 0
  {
    if n > 0 {
      EvaluateSigns(b, n - 1);
      ColumnSigns(b, n - 1, 8);
    }
  }

  lemma {:induction false} ColumnSigns(b: Board, x: int, n: nat)
    requires 0 <= x < 8 && n <= 8
    ensures (forall s :: s in b ==> b[s].isWhite) ==> ColumnSum(b, x, n) >= 0
    ensures (forall s :: s in b ==> !b[s].isWhite) ==> ColumnSum(b, x, n) <= 0
  {
    if n > 0 {
      ColumnSigns(b, x, n - 1);
      assert At(b, x, n - 1).Some? ==> Square(x, n - 1) in b;
    }
  }

  /** The board seen from the other side: every piece changes colour and
      row y becomes row 7 - y. */
  function Mirror(b: Board): (r: Board)
    ensures WellFormed(r)
    ensures forall x, y :: InBounds(x, y) ==>
      At(r, x, y) == match At(b, x, 7 - y)
                     case None => None
                     case Some(p) => Some(PieceData(!p.isWhite, p.isKing))
  {
    map s | s in b && InBounds(s.x, s.y) :: Square(s.x, 7 - s.y) := PieceData(!b[s].isWhite, b[s].isKing)
  }

  /** A piece is worth the same to its own side after swapping its colour
      and mirroring its row. */
  lemma PieceValueMirror(p: PieceData, x: int, y: int)
    requires InBounds(x, y)
    ensures PieceValue(PieceData(!p.isWhite, p.isKing), x, 7 - y) == PieceValue(p, x, y)
  {
  }

  /** Mirroring negates the contribution of the mirrored square. */
  lemma MirrorContribution(b: Board, x: int, y: int)
    requires InBounds(x, y)
    ensures Contribution(Mirror(b), x, y) == -Contribution(b, x, 7 - y)
  {
    if At(b, x, 7 - y).Some? {
      PieceValueMirror(At(b, x, 7 - y).value, x, 7 - y);
    }
  }

  /** Two columns whose squares contribute opposite amounts in reversed
      row order: the first n rows of one are the last n rows of the other,
      negated. */
  lemma {:induction false} ReversedColumn(b: Board, m: Board, x: int, n: nat)
    requires 0 <= x < 8 && n <= 8
    requires forall y :: 0 <= y < 8 ==> Contribution(m, x, y) == -Contribution(b, x, 7 - y)
    ensures ColumnSum(m, x, n) == -(ColumnSum(b, x, 8) - ColumnSum(b, x, 8 - n))
  {
    if n > 0 {
      ReversedColumn(b, m, x, n - 1);
      assert ColumnSum(m, x, n) == ColumnSum(m, x, n - 1) + Contribution(m, x, n - 1);
      assert ColumnSum(b, x, 9 - n) == ColumnSum(b, x, 8 - n) + Contribution(b, x, 8 - n);
    }
  }

  lemma {:induction false} MirrorBoardSum(b: Board, n: nat)
    requires n <= 8
    ensures BoardSum(Mirror(b), n) == -BoardSum(b, n)
  {
    if n > 0 {
      MirrorBoardSum(b, n - 1);
      var x := n - 1;
      var m := Mirror(b);
      forall y | 0 <= y < 8 ensures Contribution(m, x, y) == -Contribution(b, x, 7 - y) {
        MirrorContribution(b, x, y);
      }
      ReversedColumn(b, m, x, 8);
    }
  }

  /** Swapping the colours and mirroring the rows negates the evaluation. */
  lemma EvaluateMirror(b: Board)
    ensures EvaluateBoard(Mirror(b)) == -EvaluateBoard(b)
  {
    MirrorBoardSum(b, 8);
  }

  // ---------------------------------------------------------------------
  // Minimax with alpha-beta cutoffs

  /** The moves of the generator can be simulated. */
  lemma GeneratedMovesSimulate(b: Board, isWhite: bool)
    ensures forall k :: 0 <= k < |GenerateAllMovesFromState(b, isWhite)| ==>
      CanSimulate(b, GenerateAllMovesFromState(b, isWhite)[k])
  {
    var moves := GenerateAllMovesFromState(b, isWhite);
    forall k | 0 <= k < |moves| ensures CanSimulate(b, moves[k]) {
      assert moves[k] in moves;
    }
  }

  /** The game tree the search explores from `b`: a leaf with the
      evaluation at depth 0 or when a side has no pieces, otherwise a node
      whose children are the positions after each generated move, in the
      generator's order, with the other side to move. */
  function GameTree(b: Board, depth: nat, isMaximizingPlayer: bool): (t: Tree)
    decreases depth
  {
    if depth == 0 || IsTerminalState(b) then Leaf(EvaluateBoard(b))
    else
      GeneratedMovesSimulate(b, isMaximizingPlayer);
      var moves := GenerateAllMovesFromState(b, isMaximizingPlayer);
      Node(isMaximizingPlayer,
           seq(|moves|, k requires 0 <= k < |moves| =>
             GameTree(SimulateMoveOnState(b, moves[k]), depth - 1, !isMaximizingPlayer)))
  }

  /** `Minimax`: white maximises, black minimises, with the window
      (alpha, beta). Depth 0 or a side with no pieces ends the search with
      the evaluation; a side that is to move but has no move scores the
      worst it can (-inf for white, +inf for black). */
  function Minimax(b: Board, depth: nat, alpha: Score, beta: Score, isMaximizingPlayer: bool): (r: Score)
    ensures depth == 0 || IsTerminalState(b) ==> r == Fin(EvaluateBoard(b))
    ensures depth > 0 && !IsTerminalState(b) && |GenerateAllMovesFromState(b, isMaximizingPlayer)| == 0 ==>
      r == if isMaximizingPlayer then NegInf else PosInf
  {
    Search(GameTree(b, depth, isMaximizingPlayer), alpha, beta)
  }

  /** The reference: minimax over the same tree with every move searched. */
  function PlainMinimax(b: Board, depth: nat, isMaximizingPlayer: bool): Score {
    Value(GameTree(b, depth, isMaximizingPlayer))
  }

  /** The children of `t` are the game trees after `moves`, in order. */
  ghost predicate ChildrenAfter(t: Tree, b: Board, moves: seq<Move>, depth: nat, isMaximizingPlayer: bool)
    requires depth > 0
  {
    && t.Node? && |t.children| == |moves|
    && forall k :: 0 <= k < |moves| ==>
         CanSimulate(b, moves[k]) &&
         t.children[k] == GameTree(SimulateMoveOnState(b, moves[k]), depth - 1, !isMaximizingPlayer)
  }

  /** Away from the leaves, the tree's children are the game trees of the
      positions after the generated moves, in order. */
  lemma GameTreeChildren(b: Board, depth: nat, isMaximizingPlayer: bool)
    requires depth > 0 && !IsTerminalState(b)
    ensures GameTree(b, depth, isMaximizingPlayer).Node?
    ensures GameTree(b, depth, isMaximizingPlayer).maximizing == isMaximizingPlayer
    ensures ChildrenAfter(GameTree(b, depth, isMaximizingPlayer), b, GenerateAllMovesFromState(b, isMaximizingPlayer), depth, isMaximizingPlayer)
  {
    GeneratedMovesSimulate(b, isMaximizingPlayer);
  }

  /** The largest child value of a node over a move list is the best value
      of the positions those moves lead to. */
  lemma MaxOverMoves(t: Tree, b: Board, moves: seq<Move>, depth: nat)
    requires depth > 0 && ChildrenAfter(t, b, moves, depth, true)
    ensures forall m :: m in moves ==>
      CanSimulate(b, m) && Le(PlainMinimax(SimulateMoveOnState(b, m), depth - 1, false), MaxValue(t, 0))
    ensures |moves| == 0 ==> MaxValue(t, 0) == NegInf
    ensures |moves| > 0 ==>
      exists m :: m in moves && CanSimulate(b, m) && MaxValue(t, 0) == PlainMinimax(SimulateMoveOnState(b, m), depth - 1, false)
  {
    MaxValueIsMaximum(t, 0);
    forall m | m in moves
      ensures CanSimulate(b, m) && Le(PlainMinimax(SimulateMoveOnState(b, m), depth - 1, false), MaxValue(t, 0))
    {
      var k :| 0 <= k < |moves| && moves[k] == m;
      assert Le(Value(t.children[k]), MaxValue(t, 0));
    }
    if |moves| > 0 {
      var k :| 0 <= k < |moves| && MaxValue(t, 0) == Value(t.children[k]);
      assert moves[k] in moves;
    }
  }

  /** The smallest child value of a node over a move list is the lowest
      value of the positions those moves lead to. */
  lemma MinOverMoves(t: Tree, b: Board, moves: seq<Move>, depth: nat)
    requires depth > 0 && ChildrenAfter(t, b, moves, depth, false)
    ensures forall m :: m in moves ==>
      CanSimulate(b, m) && Le(MinValue(t, 0), PlainMinimax(SimulateMoveOnState(b, m), depth - 1, true))
    ensures |moves| == 0 ==> MinValue(t, 0) == PosInf
    ensures |moves| > 0 ==>
      exists m :: m in moves && CanSimulate(b, m) && MinValue(t, 0) == PlainMinimax(SimulateMoveOnState(b, m), depth - 1, true)
  {
    MinValueIsMinimum(t, 0);
    forall m | m in moves
      ensures CanSimulate(b, m) && Le(MinValue(t, 0), PlainMinimax(SimulateMoveOnState(b, m), depth - 1, true))
    {
      var k :| 0 <= k < |moves| && moves[k] == m;
      assert Le(MinValue(t, 0), Value(t.children[k]));
    }
    if |moves| > 0 {
      var k :| 0 <= k < |moves| && MinValue(t, 0) == Value(t.children[k]);
      assert moves[k] in moves;
    }
  }

  /** Away from the leaves with white to move, the plain minimax value is
      the best value of the positions white's moves lead to: no move does
      better, some move attains it, and with no move at all it is -inf. */
  lemma PlainMinimaxMaximises(b: Board, depth: nat)
    requires depth > 0 && !IsTerminalState(b)
    ensures var moves := GenerateAllMovesFromState(b, true);
      && (forall m :: m in moves ==>
            CanSimulate(b, m) && Le(PlainMinimax(SimulateMoveOnState(b, m), depth - 1, false), PlainMinimax(b, depth, true)))
      && (|moves| == 0 ==> PlainMinimax(b, depth, true) == NegInf)
      && (|moves| > 0 ==>
            exists m :: m in moves && CanSimulate(b, m) &&
              PlainMinimax(b, depth, true) == PlainMinimax(SimulateMoveOnState(b, m), depth - 1, false))
  {
    var t := GameTree(b, depth, true);
    GameTreeChildren(b, depth, true);
    assert PlainMinimax(b, depth, true) == MaxValue(t, 0);
    MaxOverMoves(t, b, GenerateAllMovesFromState(b, true), depth);
  }

  /** Away from the leaves with black to move, the plain minimax value is
      the lowest value of the positions black's moves lead to: no move does
      lower, some move attains it, and with no move at all it is +inf. */
  lemma PlainMinimaxMinimises(b: Board, depth: nat)
    requires depth > 0 && !IsTerminalState(b)
    ensures var moves := GenerateAllMovesFromState(b, false);
      && (forall m :: m in moves ==>
            CanSimulate(b, m) && Le(PlainMinimax(b, depth, false), PlainMinimax(SimulateMoveOnState(b, m), depth - 1, true)))
      && (|moves| == 0 ==> PlainMinimax(b, depth, false) == PosInf)
      && (|moves| > 0 ==>
            exists m :: m in moves && CanSimulate(b, m) &&
              PlainMinimax(b, depth, false) == PlainMinimax(SimulateMoveOnState(b, m), depth - 1, true))
  {
    var t := GameTree(b, depth, false);
    GameTreeChildren(b, depth, false);
    assert PlainMinimax(b, depth, false) == MinValue(t, 0);
    MinOverMoves(t, b, GenerateAllMovesFromState(b, false), depth);
  }

  /** The cutoffs never change what the search decides: for every open
      window `Minimax` agrees with `PlainMinimax` in the fail-soft sense. */
  lemma AlphaBetaSound(b: Board, depth: nat, alpha: Score, beta: Score, isMaximizingPlayer: bool)
    requires Lt(alpha, beta)
    ensures Bounds(Minimax(b, depth, alpha, beta, isMaximizingPlayer), PlainMinimax(b, depth, isMaximizingPlayer), alpha, beta)
  {
    SearchSound(GameTree(b, depth, isMaximizingPlayer), alpha, beta);
  }

  /** With the full window (-inf, +inf), as every search starts, alpha-beta
      returns exactly the plain minimax value. */
  lemma AlphaBetaFullWindow(b: Board, depth: nat, isMaximizingPlayer: bool)
    ensures Minimax(b, depth, NegInf, PosInf, isMaximizingPlayer) == PlainMinimax(b, depth, isMaximizingPlayer)
  {
    FullWindow(GameTree(b, depth, isMaximizingPlayer));
  }

  // ---------------------------------------------------------------------
  // The root choice for black

  /** What `SimulateMove` needs: the move is on the board and a piece
      stands on its start. */
  predicate Simulable(pieces: BoardManager.Pieces, m: Move) {
    OnBoard(m) && Square(m.startX, m.startY) in pieces
  }

  /** The score `GetBestMove` gives a black move: a full-window search of
      the position after it, white to move, one ply shallower. */
  function RootScore(pieces: BoardManager.Pieces, m: Move, difficulty: int): Score
    requires difficulty >= 1 && Simulable(pieces, m)
  {
    Minimax(SimulateMove(pieces, m), difficulty - 1, NegInf, PosInf, true)
  }

  /** The root scores of a move list, in its order. */
  function RootScores(pieces: BoardManager.Pieces, moves: seq<Move>, difficulty: int): (r: seq<Score>)
    requires difficulty >= 1 && forall k :: 0 <= k < |moves| ==> Simulable(pieces, moves[k])
    ensures |r| == |moves|
  {
    seq(|moves|, k requires 0 <= k < |moves| => RootScore(pieces, moves[k], difficulty))
  }

  /** Position k holds the first largest score: every earlier score is
      smaller, no later one is larger. */
  predicate FirstBest(scores: seq<Score>, k: int) {
    && 0 <= k < |scores|
    && (forall j :: 0 <= j < k ==> Lt(scores[j], scores[k]))
    && (forall j :: k < j < |scores| ==> Le(scores[j], scores[k]))
  }

  /** The selection loop of `GetBestMove`: starting from -inf, keep the
      position of each score that beats the best so far. It ends with no
      position exactly when every score is -inf. */
  method SelectBest(scores: seq<Score>) returns (bestIndex: Option<nat>)
    ensures bestIndex.None? <==> forall j :: 0 <= j < |scores| ==> scores[j] == NegInf
    ensures bestIndex.Some? ==> FirstBest(scores, bestIndex.value) && scores[bestIndex.value] != NegInf
  {
    bestIndex := None;
    var bestScore := NegInf;
    for i := 0 to |scores|
      invariant bestIndex.None? ==> bestScore == NegInf && forall j :: 0 <= j < i ==> scores[j] == NegInf
      invariant bestIndex.Some? ==> bestIndex.value < i && bestScore == scores[bestIndex.value] != NegInf
      invariant bestIndex.Some? ==> forall j :: 0 <= j < bestIndex.value ==> Lt(scores[j], bestScore)
      invariant bestIndex.Some? ==> forall j :: bestIndex.value < j < i ==> Le(scores[j], bestScore)
    {
      if Lt(bestScore, scores[i]) {
        bestScore := scores[i];
        bestIndex := Some(i);
      }
    }
  }

  /** `GetBestMove`: black's move list is scored from white's side and the
      first move whose score beats every earlier one, starting from -inf,
      is kept. There is no move when black has none, and also when every
      move scores -inf. */
  method GetBestMove(pieces: BoardManager.Pieces, difficulty: int) returns (bestMove: Option<Move>)
    requires difficulty >= 1
    ensures var moves := GenerateAllMoves(pieces, false);
      var scores := RootScores(pieces, moves, difficulty);
      && (bestMove.None? <==> forall k :: 0 <= k < |moves| ==> scores[k] == NegInf)
      && (bestMove.Some? ==> exists k :: FirstBest(scores, k) && scores[k] != NegInf && bestMove.value == moves[k])
  {
    var possibleMoves := GenerateAllMoves(pieces, false);
    if |possibleMoves| == 0 {
      return None;
    }
    var scores := RootScores(pieces, possibleMoves, difficulty);
    var bestIndex := SelectBest(scores);
    if bestIndex.Some? {
      var k := bestIndex.value;
      assert !(forall j :: 0 <= j < |possibleMoves| ==> scores[j] == NegInf) by {
        assert scores[k] != NegInf;
      }
      bestMove := Some(possibleMoves[k]);
    } else {
      bestMove := None;
    }
  }

  /** The selection loop as evidently intended: the first score is the
      initial best, so some position is always chosen from a non-empty
      list. */
  method SelectBestCorrected(scores: seq<Score>) returns (bestIndex: nat)
    requires |scores| > 0
    ensures FirstBest(scores, bestIndex)
  {
    bestIndex := 0;
    for i := 1 to |scores|
      invariant bestIndex < i
      invariant forall j :: 0 <= j < bestIndex ==> Lt(scores[j], scores[bestIndex])
      invariant forall j :: bestIndex < j < i ==> Le(scores[j], scores[bestIndex])
    {
      if Lt(scores[bestIndex], scores[i]) {
        bestIndex := i;
      }
    }
  }

  /** `GetBestMove` as evidently intended: the same choice, except that the
      first move is kept when every move scores -inf, so black plays
      whenever it has a move. */
  method GetBestMoveCorrected(pieces: BoardManager.Pieces, difficulty: int) returns (bestMove: Option<Move>)
    requires difficulty >= 1
    ensures var moves := GenerateAllMoves(pieces, false);
      var scores := RootScores(pieces, moves, difficulty);
      && (bestMove.None? <==> |moves| == 0)
      && (bestMove.Some? ==> exists k :: FirstBest(scores, k) && bestMove.value == moves[k])
  {
    var possibleMoves := GenerateAllMoves(pieces, false);
    if |possibleMoves| == 0 {
      return None;
    }
    var scores := RootScores(pieces, possibleMoves, difficulty);
    var k := SelectBestCorrected(scores);
    bestMove := Some(possibleMoves[k]);
  }

  // ---------------------------------------------------------------------
  // A position where `GetBestMove` passes although black can move

  /** White's last man on (7, 6), hemmed in by black men on (6, 7) and
      (5, 6): black can move the man on (5, 6), and either move leaves
      white without a move. */
  function StalledPieces(): BoardManager.Pieces {
    map[Square(7, 6) := BoardManager.Piece(7, 6, true, false, false),
        Square(6, 7) := BoardManager.Piece(6, 7, false, false, false),
        Square(5, 6) := BoardManager.Piece(5, 6, false, false, false)]
  }

  /** Black's only playable moves in that position. */
  lemma StalledBlackMoves(m: Move)
    ensures Playable(BoardManager.Snapshot(StalledPieces()), false, m) <==>
      m == Move(5, 6, 4, 5) || m == Move(5, 6, 6, 5)
  {
    var b := BoardManager.Snapshot(StalledPieces());
    assert At(b, 7, 6) == Some(PieceData(true, false));
    assert At(b, 6, 7) == Some(PieceData(false, false));
    assert At(b, 5, 6) == Some(PieceData(false, false));
    assert forall x, y :: InBounds(x, y) && (x, y) != (7, 6) && (x, y) != (6, 7) && (x, y) != (5, 6) ==> At(b, x, y).None?;
  }

  /** After either black move white's man is still alone on (7, 6) and the
      black man on (6, 7) is still in front of it. */
  lemma StalledChild(m: Move)
    requires m == Move(5, 6, 4, 5) || m == Move(5, 6, 6, 5)
    ensures CanSimulate(BoardManager.Snapshot(StalledPieces()), m)
    ensures var c := SimulateMoveOnState(BoardManager.Snapshot(StalledPieces()), m);
      && At(c, 7, 6) == Some(PieceData(true, false))
      && At(c, 6, 7) == Some(PieceData(false, false))
      && forall x, y :: InBounds(x, y) && At(c, x, y).Some? && At(c, x, y).value.isWhite ==> x == 7 && y == 6
  {
    var b := BoardManager.Snapshot(StalledPieces());
    assert At(b, 7, 6) == Some(PieceData(true, false));
    assert At(b, 6, 7) == Some(PieceData(false, false));
    assert At(b, 5, 6) == Some(PieceData(false, false));
    assert forall x, y :: InBounds(x, y) && (x, y) != (7, 6) && (x, y) != (6, 7) && (x, y) != (5, 6) ==> At(b, x, y).None?;
  }

  /** A white man alone on (7, 6) with a piece on (6, 7) has no move, and
      the game is not over while that piece is black. */
  lemma LoneWhiteManBlocked(c: Board)
    requires At(c, 7, 6) == Some(PieceData(true, false))
    requires At(c, 6, 7) == Some(PieceData(false, false))
    requires forall x, y :: InBounds(x, y) && At(c, x, y).Some? && At(c, x, y).value.isWhite ==> x == 7 && y == 6
    ensures !IsTerminalState(c) && |GenerateAllMovesFromState(c, true)| == 0
  {
    assert Square(7, 6) in c && c[Square(7, 6)].isWhite;
    assert Square(6, 7) in c && !c[Square(6, 7)].isWhite;
    assert forall w :: !Playable(c, true, w);
    GeneratorEmpty(c, true);
  }

  /** After either black move white has no move while both colours are
      on the board. */
  lemma StalledAfterBlackMove(m: Move)
    requires m == Move(5, 6, 4, 5) || m == Move(5, 6, 6, 5)
    ensures CanSimulate(BoardManager.Snapshot(StalledPieces()), m)
    ensures var c := SimulateMoveOnState(BoardManager.Snapshot(StalledPieces()), m);
      !IsTerminalState(c) && |GenerateAllMovesFromState(c, true)| == 0
  {
    StalledChild(m);
    LoneWhiteManBlocked(SimulateMoveOnState(BoardManager.Snapshot(StalledPieces()), m));
  }

  /** In that position every black move scores -inf at any difficulty from
      2 on, so `GetBestMove` returns no move although black has two: the
      AI never moves and the game stalls instead of black winning. */
  lemma StalledPositionPasses(difficulty: int)
    requires difficulty >= 2
    ensures var moves := GenerateAllMoves(StalledPieces(), false);
      && |moves| > 0
      && forall k :: 0 <= k < |moves| ==> RootScore(StalledPieces(), moves[k], difficulty) == NegInf
  {
    var pieces := StalledPieces();
    var moves := GenerateAllMoves(pieces, false);
    var m1 := Move(5, 6, 4, 5);
    StalledBlackMoves(m1);
    LiveMoveIsPlayable(pieces, false, m1);
    assert !IsJump(m1);
    forall w | LiveMove(pieces, false, w) && IsJump(w) ensures false {
      LiveMoveIsPlayable(pieces, false, w);
      StalledBlackMoves(w);
    }
    assert m1 in moves;
    forall k | 0 <= k < |moves| ensures RootScore(pieces, moves[k], difficulty) == NegInf {
      var m := moves[k];
      assert m in moves;
      LiveMoveIsPlayable(pieces, false, m);
      StalledBlackMoves(m);
      StalledAfterBlackMove(m);
    }
  }
}
