# Minimax checkers: a Dafny model of the rules and the search

This project models the game logic of a Unity checkers game in which a
human plays white against a minimax AI that plays black. It covers four
parts.

- **The rule engine.** This is module `Rules`. It covers:
  - move legality: a one-square diagonal step, or a two-square diagonal over a piece of the other colour, with men moving forward only;
  - the mandatory-capture move generator, in the order of its four nested loops;
  - move simulation, with capture and promotion on the far row;
  - piece counting and the terminal test.

  The search runs all of this on its `GameState` snapshot. A board is a map from occupied squares to a piece's colour and king flag.
- **The live board of `BoardManager`.** This is module `BoardManager`. It covers the `pieces` array and its flags: the starting position, `GetPiece`, `IsValidMove`, `CanJumpFrom`, the array writes of `MovePiece` (including the multi-jump flag), `CountPieces`, `HasValidMoves` and `CheckWinCondition`. Every rule question on the live board goes to the same legality predicate, applied to a snapshot of the array.
- **The search of `CheckersAI`.** This is modules `Scores`, `AlphaBeta` and `CheckersAI`. It covers:
  - the static evaluation, with float scores scaled by 200 so they are integers;
  - `Minimax` with alpha-beta cutoffs. It is written as a search over the game tree that the generator and the simulation span;
  - plain minimax as its reference;
  - the root move choice `GetBestMove`.

  Black plays by keeping the move with the highest score from white's point of view. This is modelled as written.
- **The turn bookkeeping of `GameManager`.** This is module `GameManager`. It covers the side to move, the `int` turn counter with its wrap-around, and the maze trigger every six half-turns.

The main results are:
- the pruned search agrees with plain minimax: exactly for the full window, and in the fail-soft sense for any open window;
- the generator lists exactly the playable moves, with only captures when a capture exists, in scan order;
- moving a piece on the live array does exactly what the search's simulation does;
- a capture lowers the opponent's count by one;
- the evaluation is antisymmetric under swapping colours and mirroring rows;
- the win check never lets play go on in a position the search treats as over;
- white is to move exactly when the turn counter is even.

## Model

| member | source | states |
|---|---|---|
| Scores.Max | Assets/Scripts/CheckersAI.cs:99-100 | `Mathf.Max` on extended scores is an upper bound of both arguments and is one of them |
| Scores.Min | Assets/Scripts/CheckersAI.cs:117-118 | `Mathf.Min` on extended scores is a lower bound of both arguments and is one of them |
| Scores.LeTotalOrder | Assets/Scripts/CheckersAI.cs:99-100 | the order of the extended scores that `Mathf.Max`/`Min` and the cutoff test use is reflexive, total, antisymmetric and transitive |
| Scores.MaxStepCutoff | Assets/Scripts/CheckersAI.cs:98-103 | a maximiser step that reaches `beta <= alpha` still returns a fail-soft bound of the maximum over all children |
| Scores.MaxStepContinue | Assets/Scripts/CheckersAI.cs:98-103 | a maximiser step that raises alpha and goes on keeps the fail-soft bound for the original window |
| Scores.MinStepCutoff | Assets/Scripts/CheckersAI.cs:116-121 | a minimiser step that reaches `beta <= alpha` still returns a fail-soft bound of the minimum over all children |
| Scores.MinStepContinue | Assets/Scripts/CheckersAI.cs:116-121 | a minimiser step that lowers beta and goes on keeps the fail-soft bound for the original window |
| AlphaBeta.Search | Assets/Scripts/CheckersAI.cs:82-126 | a leaf returns its evaluation; a node with no children returns -inf for the maximiser and +inf for the minimiser |
| AlphaBeta.MaxLoop | Assets/Scripts/CheckersAI.cs:90-107 | the maximiser's loop never returns less than the running best |
| AlphaBeta.MinLoop | Assets/Scripts/CheckersAI.cs:108-125 | the minimiser's loop never returns more than the running best |
| AlphaBeta.MaxValueIsMaximum | Assets/Scripts/CheckersAI.cs:90-107 | unpruned, the maximiser's value bounds every child's value from above, is attained by a child, and is -inf with no children |
| AlphaBeta.MinValueIsMinimum | Assets/Scripts/CheckersAI.cs:108-125 | unpruned, the minimiser's value bounds every child's value from below, is attained by a child, and is +inf with no children |
| AlphaBeta.SearchSound | Assets/Scripts/CheckersAI.cs:82-126 | for every window with alpha < beta the pruned result equals the minimax value when that value lies strictly inside; otherwise it lies between the value and the window edge it crossed |
| AlphaBeta.MaxLoopSound | Assets/Scripts/CheckersAI.cs:90-107 | the maximiser's loop with its alpha updates and beta cutoff is a fail-soft bound of the maximum of the running best and the remaining children |
| AlphaBeta.MinLoopSound | Assets/Scripts/CheckersAI.cs:108-125 | the minimiser's loop with its beta updates and alpha cutoff is a fail-soft bound of the minimum of the running best and the remaining children |
| AlphaBeta.FullWindow | Assets/Scripts/CheckersAI.cs:82-126 | started with the window (-inf, +inf), the pruned search returns exactly the minimax value |
| Rules.Clone | Assets/Scripts/CheckersAI.cs:420-434 | the copy holds the same piece (colour and king flag) on every square of the board, and nothing off it |
| Rules.IsValidMoveInState | Assets/Scripts/CheckersAI.cs:262-308 | a move is valid if and only if the end is on the board and empty, the start holds a piece, a man moves forward for its colour, and the step is a one-square diagonal or a two-square diagonal over a piece of the other colour |
| Rules.ValidMoveGeometry | Assets/Scripts/CheckersAI.cs:262-308 | a valid move goes along a diagonal (the same non-zero distance across and up) and so keeps the parity of x + y, the colour of the square |
| Rules.CandidateIndex | Assets/Scripts/CheckersAI.cs:229-239 | each of the 4096 iterations of the four nested loops visits an on-board move whose position in the scan is that iteration |
| Rules.IndexCandidate | Assets/Scripts/CheckersAI.cs:229-239 | every on-board move is visited by exactly the iteration at its scan position |
| Rules.ScanIndexInjective | Assets/Scripts/CheckersAI.cs:229-239 | no two on-board moves share a scan position |
| Rules.ScanIndexIsLexicographic | Assets/Scripts/CheckersAI.cs:229-239 | one move comes before another in the scan if and only if it is earlier by start x, then start y, then end x, then end y |
| Rules.ScanMoves | Assets/Scripts/CheckersAI.cs:229-253 | the scan from a loop position lists only playable moves of the requested kind, in scan order, and every such move from that position on |
| Rules.GenerateAllMovesFromState | Assets/Scripts/CheckersAI.cs:224-259 | a move is listed if and only if a piece of the colour can play it and it is a capture or no capture exists; the list is in scan order; it holds only captures when some capture exists and none otherwise |
| Rules.MandatoryCapture | Assets/Scripts/CheckersAI.cs:255-258 | the jump list is non-empty exactly when some capture exists, and the returned list holds exactly the mandatory moves |
| Rules.GeneratorEmpty | Assets/Scripts/CheckersAI.cs:224-259 | the generator returns nothing if and only if no piece of the colour has any valid move |
| Rules.GeneratorOrder | Assets/Scripts/CheckersAI.cs:229-253 | a list in increasing scan position is ordered by start x, start y, end x, end y |
| Rules.SimulateMoveOnStateEffect | Assets/Scripts/CheckersAI.cs:351-372 | the piece lands on the end with its colour, a king exactly when it was one or reached its far row; the start is empty, the midpoint of a capture is empty, and every other square is unchanged |
| Rules.SimulateMoveOnState | Assets/Scripts/CheckersAI.cs:351-372 | the search's move on a copied board; its effect is the one `Rules.SimulateMoveOnStateEffect` states: the piece lands on the end, crowned on its far row, the start and a captured midpoint are emptied, and nothing else changes |
| Rules.CountPieces | Assets/Scripts/CheckersAI.cs:394-409 | the count of a colour is zero if and only if no piece on the board has that colour |
| Rules.OwnedEmpty | Assets/Scripts/CheckersAI.cs:394-409 | a colour owns no square if and only if every piece is of the other colour |
| Rules.IsTerminalState | Assets/Scripts/CheckersAI.cs:392-412 | a position is terminal if and only if every piece is white or every piece is black |
| Rules.OwnedAfterMove | Assets/Scripts/CheckersAI.cs:351-364 | after a playable move the mover owns the same squares with the start replaced by the end; the opponent loses exactly the midpoint on a capture and nothing on a step |
| Rules.SimulateCounts | Assets/Scripts/CheckersAI.cs:351-364 | a playable move keeps the mover's count; a capture lowers the opponent's count by one and a step keeps it |
| BoardManager.Snapshot | Assets/Scripts/CheckersAI.cs:316-326 | the search's copy of the live array holds, on every square, the colour and king flag of the live piece there |
| BoardManager.SpawnRow | Assets/Scripts/BoardManager.cs:55-60 | the inner spawning loop puts a white or black man on each square with odd x + y from the given column on, and changes no other cell |
| BoardManager.SpawnRows | Assets/Scripts/BoardManager.cs:53-61 | the outer spawning loop does the same for every row in its range |
| BoardManager.SpawnAllPieces | Assets/Scripts/BoardManager.cs:50-71 | white men stand on the odd squares of rows 0 to 2 and black men on those of rows 5 to 7, each recording its square; every other cell is as it was |
| BoardManager.SpawnKeepsConsistent | Assets/Scripts/BoardManager.cs:73-85 | every spawned piece records the square of the array it is stored in |
| BoardManager.SpawnOnEmptyIsFresh | Assets/Scripts/BoardManager.cs:50-71 | spawning into the empty array gives exactly the starting position, with every piece recording its square |
| BoardManager.StartingCounts | Assets/Scripts/BoardManager.cs:50-71 | the starting position has twelve white and twelve black pieces |
| BoardManager.StartingStep | Assets/Scripts/BoardManager.cs:134-184 | in the starting position a front man can step diagonally forward onto an empty square |
| BoardManager.StartingPositionPlays | Assets/Scripts/BoardManager.cs:312-330 | the win check reports no winner in the starting position |
| BoardManager.GetPiece | Assets/Scripts/BoardManager.cs:264-269 | off the board there is no piece; on it, the cell of the array |
| BoardManager.GetPieceOwns | Assets/Scripts/BoardManager.cs:264-269 | on the board, a colour owns a square exactly when `GetPiece` returns a piece of that colour there, so reading the array directly and through `GetPiece` agree |
| BoardManager.IsValidMove | Assets/Scripts/BoardManager.cs:134-184 | a valid move leaves an occupied square for an empty one on the board, one or two squares along a diagonal, keeping the square colour |
| CheckersAI.LiveMoveIsPlayable | Assets/Scripts/BoardManager.cs:134-184 | a piece of the colour with a move that `IsValidMove` accepts is exactly a move the search's `IsValidMoveInState` accepts on the copied board |
| BoardManager.JumpFromAny | Assets/Scripts/BoardManager.cs:196-213 | the loop over the four jump offsets finds a capture if and only if one of the remaining offsets gives one |
| BoardManager.CanJumpFrom | Assets/Scripts/BoardManager.cs:187-214 | a piece can jump if and only if some two-column move from its square is valid; an empty square cannot jump |
| BoardManager.JumpsInDirection | Assets/Scripts/BoardManager.cs:196-210 | one pass of `CanJumpFrom`'s loop: the jump by the i-th offset is valid and a piece of the other colour stands on its midpoint; `BoardManager.JumpFromAny` states what the loop makes of it |
| BoardManager.JumpScan | Assets/Scripts/BoardManager.cs:189-213 | the body of `CanJumpFrom` on the copied cells: false on an empty square, otherwise the offset loop; `BoardManager.JumpScanIsJumpSearch` characterises it |
| BoardManager.JumpScanIsJumpSearch | Assets/Scripts/BoardManager.cs:189-213 | the offset loop on the snapshot finds a jump exactly when some valid two-column move starts on the square |
| BoardManager.JumpDirections | Assets/Scripts/BoardManager.cs:193-209 | the four offsets cover every valid two-column move, and each one that succeeds is one |
| BoardManager.MoveAndCrownIsSimulation | Assets/Scripts/BoardManager.cs:216-247 | moving, capturing and crowning on the array is what the search's simulation does to the copied board |
| BoardManager.MoveAndCrown | Assets/Scripts/BoardManager.cs:218-247 | the array writes of `MovePiece` before the multi-jump flag; `BoardManager.MoveAndCrownIsSimulation` proves they are the search's simulation on the snapshot |
| BoardManager.FlagAfterMove | Assets/Scripts/BoardManager.cs:249-261 | setting the multi-jump flag changes nothing the rules see; the moved piece keeps its colour, is crowned on its far row, and every other piece is untouched |
| BoardManager.MovePiece | Assets/Scripts/BoardManager.cs:216-262 | the rules' view after the move is the search's simulation; the moved piece records its new square, is a king exactly when it was one or reached its far row, and may continue jumping exactly when it jumped and can jump again; other pieces are untouched |
| BoardManager.CountPieces | Assets/Scripts/BoardManager.cs:272-284 | the count of a colour is zero if and only if no piece on the board has that colour |
| BoardManager.MovePieceCounts | Assets/Scripts/BoardManager.cs:229-241 | a move accepted by `IsValidMove` keeps the mover's count; a capture lowers the opponent's count by one and a step keeps it |
| BoardManager.HasValidMovesFrom | Assets/Scripts/BoardManager.cs:289-308 | the scan from a loop position finds a move if and only if some playable move lies at or after it |
| BoardManager.HasValidMoves | Assets/Scripts/BoardManager.cs:287-309 | true if and only if some piece of the colour has a destination that `IsValidMove` accepts |
| BoardManager.CheckWinCondition | Assets/Scripts/BoardManager.cs:312-330 | black wins exactly when white has no pieces, or black has pieces and white has no valid move; white wins exactly when white has pieces and either black has none or white can move and black cannot; otherwise play goes on |
| BoardManager.WinCheckCoversTerminal | Assets/Scripts/BoardManager.cs:312-330 | a position the search treats as terminal always has a winner; with no winner, neither side's move list is empty |
| CheckersAI.GenerateAllMoves | Assets/Scripts/CheckersAI.cs:178-221 | on the live array a move is listed if and only if it is a live move of the colour and a capture or no capture exists; scan order; only captures when one exists; every listed move can be simulated |
| CheckersAI.SimulateMove | Assets/Scripts/CheckersAI.cs:311-348 | the copied board after the move is the snapshot of the live array after `MovePiece` |
| CheckersAI.PieceValue | Assets/Scripts/CheckersAI.cs:140-164 | a piece is worth between 2.8 and 5.3 (560 to 1060 in units of 1/200), and a man at most 3.8 |
| CheckersAI.Contribution | Assets/Scripts/CheckersAI.cs:167-170 | an empty square adds nothing, a white piece a positive amount and a black piece a negative amount |
| CheckersAI.EvaluateBoard | Assets/Scripts/CheckersAI.cs:129-175 | a board with white pieces only scores at least zero, one with black pieces only at most zero |
| CheckersAI.EvaluateSigns | Assets/Scripts/CheckersAI.cs:133-172 | the sum over the first n columns has the sign of the only colour on the board |
| CheckersAI.ColumnSigns | Assets/Scripts/CheckersAI.cs:135-171 | the sum over the first n rows of a column has the sign of the only colour on the board |
| CheckersAI.ColumnSum | Assets/Scripts/CheckersAI.cs:135-171 | the inner loop of `EvaluateBoard` over the rows of one column; its sign is stated by `CheckersAI.ColumnSigns` and its mirror image by `CheckersAI.ReversedColumn` |
| CheckersAI.BoardSum | Assets/Scripts/CheckersAI.cs:133-172 | the outer loop of `EvaluateBoard` over the columns; its sign is stated by `CheckersAI.EvaluateSigns` and its negation under mirroring by `CheckersAI.MirrorBoardSum` |
| CheckersAI.Mirror | Assets/Scripts/CheckersAI.cs:129-175 | the mirrored board holds, on row y, the piece of row 7 - y with its colour swapped |
| CheckersAI.PieceValueMirror | Assets/Scripts/CheckersAI.cs:140-164 | a piece is worth the same after swapping its colour and mirroring its row |
| CheckersAI.MirrorContribution | Assets/Scripts/CheckersAI.cs:167-170 | a square of the mirrored board contributes the negation of its mirror square |
| CheckersAI.ReversedColumn | Assets/Scripts/CheckersAI.cs:135-171 | a column whose squares contribute the negation of another column's in reversed rows sums to the negation of the matching rows |
| CheckersAI.MirrorBoardSum | Assets/Scripts/CheckersAI.cs:133-172 | mirroring negates the sum over the first n columns |
| CheckersAI.EvaluateMirror | Assets/Scripts/CheckersAI.cs:129-175 | swapping the colours and mirroring the rows negates the evaluation |
| CheckersAI.GeneratedMovesSimulate | Assets/Scripts/CheckersAI.cs:351-364 | every move the generator lists can be simulated |
| CheckersAI.Minimax | Assets/Scripts/CheckersAI.cs:82-126 | at depth 0 or in a terminal position the score is the evaluation; with moves searched but none available it is -inf for white and +inf for black |
| CheckersAI.GameTreeChildren | Assets/Scripts/CheckersAI.cs:92-97 | away from the leaves the children of a position are the positions after each generated move, in generator order |
| CheckersAI.GameTree | Assets/Scripts/CheckersAI.cs:85-115 | the positions `Minimax` recurses into: a leaf with the evaluation at depth 0 or in a terminal position, otherwise one child per generated move; `CheckersAI.GameTreeChildren` states the children |
| CheckersAI.MaxOverMoves | Assets/Scripts/CheckersAI.cs:90-107 | the maximum over the children is bounded by and attained at the positions after the listed moves |
| CheckersAI.MinOverMoves | Assets/Scripts/CheckersAI.cs:108-125 | the minimum over the children is bounded by and attained at the positions after the listed moves |
| CheckersAI.PlainMinimaxMaximises | Assets/Scripts/CheckersAI.cs:90-107 | with white to move, unpruned minimax is at least the value after every white move, equals the value after some move, and is -inf when white has none |
| CheckersAI.PlainMinimaxMinimises | Assets/Scripts/CheckersAI.cs:108-125 | with black to move, unpruned minimax is at most the value after every black move, equals the value after some move, and is +inf when black has none |
| CheckersAI.AlphaBetaSound | Assets/Scripts/CheckersAI.cs:82-126 | for every window with alpha < beta, `Minimax` equals plain minimax when that lies strictly inside the window, and is a fail-soft bound of it otherwise |
| CheckersAI.AlphaBetaFullWindow | Assets/Scripts/CheckersAI.cs:82-126 | `Minimax` with the window (-inf, +inf), as `GetBestMove` calls it, equals plain minimax |
| CheckersAI.RootScores | Assets/Scripts/CheckersAI.cs:63-70 | one root score per listed move |
| CheckersAI.RootScore | Assets/Scripts/CheckersAI.cs:66-69 | the score of one black move: a full-window search, white to move, one ply shallower; by `CheckersAI.AlphaBetaFullWindow` it equals the unpruned minimax value of the position after the move |
| CheckersAI.SelectBest | Assets/Scripts/CheckersAI.cs:60-76 | starting from -inf and keeping strictly better scores picks nothing exactly when every score is -inf; otherwise it picks the first position of the largest score |
| CheckersAI.GetBestMove | Assets/Scripts/CheckersAI.cs:53-79 | black's chosen move is the first listed move with the highest white-positive score; there is none exactly when every listed move scores -inf, black having no move included |
| CheckersAI.SelectBestCorrected | Assets/Scripts/CheckersAI.cs:60-76 | starting from the first score, the selection always picks the first position of the largest score |
| CheckersAI.GetBestMoveCorrected | Assets/Scripts/CheckersAI.cs:53-79 | the corrected choice returns no move exactly when black has none, and otherwise the first listed move with the highest score |
| CheckersAI.StalledBlackMoves | Assets/Scripts/CheckersAI.cs:224-259 | in the stalled position below, black's only playable moves are (5,6)-(4,5) and (5,6)-(6,5) |
| CheckersAI.StalledChild | Assets/Scripts/CheckersAI.cs:351-372 | after either of them white's only piece is still the man on (7,6), with a black man on (6,7) |
| CheckersAI.LoneWhiteManBlocked | Assets/Scripts/CheckersAI.cs:392-412 | such a position is not terminal and white's move list is empty |
| CheckersAI.StalledAfterBlackMove | Assets/Scripts/CheckersAI.cs:90-107 | after either black move white is to move, has no move, and the position is not terminal |
| CheckersAI.StalledPositionPasses | Assets/Scripts/CheckersAI.cs:60-76 | in the stalled position black has moves, yet every one of them scores -inf at every difficulty from 2 on |
| GameManager.Increment | Assets/Scripts/GameManager.cs:19 | `turnCount++` on a C# `int` adds one, wrapping from the largest value to the smallest |
| GameManager.CsRem | Assets/Scripts/GameManager.cs:24 | C#'s remainder is smaller than the divisor in size and takes the sign of the dividend |
| GameManager.CsRemSix | Assets/Scripts/GameManager.cs:24 | C#'s `turnCount % 6 == 0` holds exactly on the multiples of six, negative ones included |
| GameManager.Initial | Assets/Scripts/GameManager.cs:6-9 | the game starts with white to move and no turn counted |
| GameManager.EndTurn | Assets/Scripts/GameManager.cs:16-27 | the other side is to move, the counter goes up by one, from the largest `int` to the smallest, and the maze fires exactly when the new count is a multiple of six |
| GameManager.EndTurnPreservesInvariant | Assets/Scripts/GameManager.cs:16-19 | if white is to move exactly on even counts, this stays so after a turn, across the wrap as well |
| GameManager.TwoTurnsRestoreSide | Assets/Scripts/GameManager.cs:16-19 | two turns in a row give the move back to the same side and advance the counter by two, wrapping from the largest `int` to the smallest (IntMax - 1 goes to IntMin, IntMax to IntMin + 1) |
| GameManager.AfterTurns | Assets/Scripts/GameManager.cs:16-19 | the counter stays a valid `int` however many turns are played |
| GameManager.InvariantAlways | Assets/Scripts/GameManager.cs:6-19 | after any number of turns from the start, white is to move exactly when the counter is even |
| GameManager.AfterTurnsCount | Assets/Scripts/GameManager.cs:6-19 | until the counter wraps, after n turns it holds n and white is to move exactly when n is even |
| GameManager.MazeCadence | Assets/Scripts/GameManager.cs:24-27 | until the counter wraps, the n-th turn triggers the maze exactly when n is a multiple of six |

## Left out

- Unity presentation is not modelled, because it does not affect the rules: tiles, highlighting, transforms, `Destroy`, the turn banner (`UpdateTurnDisplay`) and what `TriggerMaze` does. `TriggerMaze` is reduced to a flag returned by `EndTurn`.
- Timing is not modelled: `Update`, `Invoke`, the move delay and `isThinking`. `MakeAIMove` adds only the null check on the chosen move.
- `ExecuteMove` and `Piece.OnMouseUp` are move-commit glue and are not modelled.
- Multi-jump chains are not modelled, because `Move.additionalJumps` is never filled. The search alternates sides after every single jump, as the source does.
- Float scores are modelled as integers scaled by 200. The C# float sums may round where the integers are exact. ±infinity are the `Scores` datatype's `NegInf` and `PosInf`.
- A move whose start is off the board is excluded by preconditions. Every caller passes an on-board start. With an off-board start the C# checks return false when the end is off the board or occupied, and otherwise index outside the array.
- CheckersAI.GetBestMove: requires a difficulty of at least 1. With 0 or less the source searches without the depth ever reaching 0.
- BoardManager.SpawnAllPieces: takes the array it writes into. `SpawnPiece` also creates the game object, which is not modelled.
- CheckersAI.Minimax: builds the whole game tree and searches it. Building a subtree that the cutoffs skip cannot be observed in a pure model, so the visiting order and the result are as in the source, but the work saved by pruning is not modelled.
- GameManager.CsRem: its ensures give the range and the sign of C#'s remainder, but not that the dividend minus it is a multiple of the divisor. The zero test that `EndTurn` needs is stated for six by `CsRemSix`.
- GameManager.MazeCadence: is stated only until the counter wraps, after 2^31 - 1 turns. `EndTurn` itself is exact across the wrap.
- `Piece.canMultiJump` is a field of the model's `Piece`. `MovePiece` writes it (Assets/Scripts/BoardManager.cs:253 and 259) and the search reads it (Assets/Scripts/CheckersAI.cs:384), but Assets/Scripts/Piece.cs declares no `canMultiJump` field. The model supplies the field those uses imply.
- `CheckWinCondition` is modelled, but no code in the three core files calls it, so the model has no step that ends the game.

## Findings

| source | as written | input that shows it | evidently intended | confidence | as-written member | corrected member |
|---|---|---|---|---|---|---|
| Assets/Scripts/CheckersAI.cs:60-76 | `GetBestMove` starts from `bestScore = -infinity` and keeps a move only when its score is strictly greater. When every black move scores -inf it returns null, so `MakeAIMove` plays nothing and the AI never moves although black has legal moves. | A white man on (7,6) and black men on (6,7) and (5,6), difficulty 2 or more. Black's two moves from (5,6) both leave white without a move, so both score -inf. | Black plays one of its moves whenever it has one: the first move is kept when no later score beats it. | medium, not executed | CheckersAI.StalledPositionPasses | CheckersAI.GetBestMoveCorrected |
