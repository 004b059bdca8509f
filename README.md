# Qirkat board engine and alpha-beta player

A Dafny model of the board engine and the computer player of a Qirkat game
(a five-by-five relative of Alquerque). The board keeps a 25-square grid
indexed `k = row * 5 + col` from the bottom-left corner, the side to move, a
game-over flag, a per-square "horizontal move" memory that forbids a piece
to step straight back sideways, and two undo stacks: the moves made and
snapshots of the memory. It sets up positions from a text layout, generates
the legal moves (captures are mandatory and are whole maximal capture
chains; single steps go forward or sideways, diagonally only from even
squares), makes and undoes moves in place, compares and prints boards and
counts pieces. The player searches a fixed depth with alpha-beta pruning
over copies of the board and records the first best move of the root.

Layout (one module per file):

- `piece_color.dfy` (`PieceColors`), `move.dfy` (`Moves`): the minimal piece
  colours and moves (a step `from -> to` with an optional rest of the capture
  chain) and the 5x5 coordinate arithmetic.
- `movegen.dfy` (`MoveGen`): move generation as functions of the grid, the
  memory and the side to move, in the order the board's loops produce moves.
- `movegen_props.dfy` (`MoveGenProps`): what the generated moves are. The
  steps of a square are exactly its legal single steps (`SimpleStep`), and the
  capture chains are exactly the maximal chains (`IsChain`).
- `position.dfy` (`Positions`): the board's state as a value and each board
  operation as a function of it (setup, make, undo, copy, render).
- `position_props.dfy` (`PositionProps`): properties of those operations. It
  covers the effects of a move, the make/undo round trip and the two ways it
  fails.
- `board.dfy` (`Boards`): the `Board` class over two arrays. Every method is
  proved to change the board exactly as the matching `Positions` function
  says.
- `search.dfy` (`Searches`): the static evaluation and the search as
  functions of the position.
- `search_props.dfy` (`SearchProps`): an independent minimax reference and
  what the search computes relative to it.
- `ai.dfy` (`Players`): the `AI` class, whose recursive method with its loop
  over the moves is proved to compute `Searches.Search`.

The search is proved fail-soft, first-best and in bounds relative to minimax
only for positions where undoing each explored move gives back the position
it was made on (`SearchProps.Restoring`). As written, undo does not give the
position back in two cases:

- undo never clears the game-over flag (`PositionProps.GameOverPersists`);
- undo loses a piece when a capture chain lands on its own start square at
  any step (`PositionProps.CycleUndoLosesPiece` exhibits such a chain).

In either case, the later siblings of that move are searched on a different
board. The model keeps this behaviour as written. The bounds of the search
and the assertion before each saved move need less: they are proved for
every position searched from a copy (empty move stack) where no explored
chain lands on its start square (`SearchProps.NoCycles`), game-ending moves
included.

## Model

| member | source | states |
|---|---|---|
| Boards.Board.constructor | qirkat/Board.java:43-45 | a new board is the cleared opening position with fresh arrays |
| Boards.Board.CopyOf | qirkat/Board.java:50-52 | the copy constructor gets fresh arrays holding B's grid, memory, side to move and game-over flag, and empty stacks |
| Boards.Board.Clear | qirkat/Board.java:66-72 | clear sets the opening layout with White to move; the memory is zeroed, its stack emptied, the move stack kept |
| PositionProps.ClearFacts | qirkat/Board.java:66-72 | the cleared position has 12 white and 12 black pieces, an empty centre square 12, White to move, the game not over and zero memory |
| Boards.Board.Copy | qirkat/Board.java:77-79 | copy(b) makes the grid, memory, side and flag those of B and keeps this board's own stacks |
| Boards.Board.InternalCopy | qirkat/Board.java:84-91 | the copy loop copies the 25 squares and memory entries, then the side to move and the game-over flag, and not the stacks |
| Boards.Board.SetPieces | qirkat/Board.java:101-136 | setPieces reports the error and changes nothing on a bad side or layout; otherwise the board becomes the described position |
| PositionProps.SetPiecesEffects | qirkat/Board.java:101-136 | BadPlayerColor exactly for a missing or EMPTY side. BadBoardDescription only for a layout that does not match. On success: the grid is the layout, the memory is zero, the memory stack is empty, the move stack is kept, NEXT is to move, and the game is over iff NEXT has no move |
| PositionProps.UpperCaseRefused | qirkat/Board.java:105-108 | a layout containing B or W is refused as a bad description, although the parsing switch has cases for them |
| Positions.StripWhitespace | qirkat/Board.java:105 | removing whitespace leaves no whitespace character and never lengthens the string |
| Positions.StripAppend | qirkat/Board.java:105 | removing whitespace from a concatenation removes it from each part and keeps the kept characters in their order |
| Positions.StripOne | qirkat/Board.java:105 | a single character is dropped exactly when it is whitespace |
| Positions.StripKeeps | qirkat/Board.java:105 | every character that is not whitespace survives as many times as it occurs |
| Boards.Board.Get | qirkat/Board.java:158-161 | get(k) is the colour on square K |
| Boards.Board.LegalMove | qirkat/Board.java:183-186 | legalMove(m) holds iff M is among the legal moves |
| Boards.Board.GetMoves | qirkat/Board.java:191-195 | getMoves() is the list of legal moves of the position |
| Boards.Board.AddMoves | qirkat/Board.java:200-213 | getMoves(moves) appends the legal moves: none once over, all capture chains square by square when a capture exists, else all single steps square by square |
| MoveGenProps.LegalMovesShape | qirkat/Board.java:200-213 | no moves when over. When a capture exists: at least one move, the moves are exactly the capture chains, and all are jumps. Otherwise exactly the single steps. Always sorted by start square and in bounds |
| MoveGenProps.AllStepsIff | qirkat/Board.java:208-212 | the step loop over squares 0..n-1 lists exactly the single steps starting below N, in ascending start order |
| MoveGenProps.AllJumpsIff | qirkat/Board.java:204-207 | the capture loop over all squares lists exactly the maximal capture chains of the side to move |
| MoveGenProps.AllJumpsSound | qirkat/Board.java:204-207 | every listed chain starts below N and is a capture chain, they are sorted by start square, and the list is non-empty iff some square below N can capture |
| Boards.Board.AddSteps | qirkat/Board.java:219-251 | getMoves(moves, k) appends the steps of square K in column-offset then row-offset order |
| MoveGenProps.StepsFromIff | qirkat/Board.java:219-251 | the steps listed for K are exactly the moves from K onto an empty square in bounds that go forward or sideways, not from the last row, diagonal only from an even square, and not straight back sideways |
| Boards.Board.AddJumps | qirkat/Board.java:257-263 | getJumps appends the capture chains of K computed on a copy of the grid |
| Boards.Board.JumpHelper | qirkat/Board.java:272-318 | jumpHelper lists the chains from K on TBOARD, direction by direction, each capture followed by every continuation or alone when none exists |
| MoveGenProps.JumpChainsSound | qirkat/Board.java:272-318 | every chain jumpHelper lists starts at K and is a capture chain: connected steps, each over an opposing piece onto an empty square two away, diagonal only from even squares, ending where no capture remains |
| MoveGenProps.JumpChainsComplete | qirkat/Board.java:272-318 | every capture chain from a square is listed by jumpHelper for it |
| MoveGenProps.ChainHead | qirkat/Board.java:272-318 | a chain's first step jumps an opposing piece onto an empty square, its rest starts where it lands and is a chain on the board after the jump, and a chain that stops has no further capture |
| MoveGenProps.JumpChainsNonEmpty | qirkat/Board.java:272-288 | jumpHelper lists some chain from K iff jumpPossible(k) |
| Boards.Board.CheckJump | qirkat/Board.java:325-338 | checkJump is true for a missing move and for any move when partial chains are allowed, and false otherwise |
| Boards.Board.JumpPossibleAt | qirkat/Board.java:351-374 | jumpPossible(k) holds iff the piece on K is the mover's and can capture in one of the eight directions (diagonals only from an even square) |
| Boards.Board.JumpPossible | qirkat/Board.java:379-386 | jumpPossible() holds iff some square has a capture |
| Boards.Board.MakeMove | qirkat/Board.java:425-468 | makeMove changes the board exactly as the make-move state function: nothing for an illegal move, else play it and set game-over when the new side has no move |
| PositionProps.MakeMoveEffects | qirkat/Board.java:425-468 | a legal move pushes one entry on each stack, empties the start and every jumped square, puts the mover on the final square, zeroes the start's memory, sets the destination's memory for a simple step, leaves other memory alone, passes the turn, and sets game-over iff the new side has no move |
| PositionProps.NoOps | qirkat/Board.java:426-464 | makeMove of a move that is not legal and undo with an empty move stack change nothing |
| Boards.Board.Undo | qirkat/Board.java:478-508 | undo changes the board exactly as the undo state function: pop the move, restore the pieces and the memory snapshot, pass the turn back, leave game-over alone |
| PositionProps.MakeUndoRoundTrip | qirkat/Board.java:425-508 | undo after a legal makeMove gives back the position, except the game-over flag, for every chain that does not land on its start square |
| PositionProps.GameOverPersists | qirkat/Board.java:478-508 | after undoing a move that ended the game, the board is still over, has no legal move, and ignores every makeMove |
| PositionProps.CycleUndoLosesPiece | qirkat/Board.java:478-508 | a legal capture chain that ends on its start square exists, and undoing it leaves that square empty instead of the mover's piece |
| Boards.Board.Equals | qirkat/Board.java:512-520 | equals holds iff the rendered grids and the sides to move agree |
| PositionProps.EqualIff | qirkat/Board.java:512-520 | two boards are equal iff their grids and sides to move are; memory, stacks and game-over flag are ignored |
| Boards.Board.ToString | qirkat/Board.java:536-564 | toString renders the rows top to bottom, a symbol per square separated by blanks, with the legend when asked |
| Boards.Board.PieceNumber | qirkat/Board.java:572-580 | piecenumber(c) is the number of squares holding C |
| Searches.StaticScore | qirkat/AI.java:117-130 | when over: WINNING_VALUE iff White has strictly more pieces, else -WINNING_VALUE (ties go to Black). Otherwise positive iff White has more pieces, and bounded by the board size |
| Players.AI.StaticScore | qirkat/AI.java:117-130 | staticScore computes the static evaluation of the board from the two piece counts |
| Players.AI.constructor | qirkat/AI.java:22-24 | a new player for MYCOLOR has found no move |
| Searches.Search | qirkat/AI.java:60-114 | a search value lies within [-INFTY, INFTY], and a node that saves its move saves none or one of its legal moves |
| Searches.Step | qirkat/AI.java:74-88 | one pass never lowers the max node's best score or alpha, keeps beta, and changes the best move only to the move searched (mirror for min) |
| Searches.Scan | qirkat/AI.java:72-105 | the loop keeps alpha non-decreasing in the max branch and beta non-increasing in the min branch, and any new best move is one of the moves scanned |
| Players.AI.Search | qirkat/AI.java:60-114 | the recursive findMove returns the search value and leaves the board and the last found move as the search describes |
| Players.AI.Visit | qirkat/AI.java:75-87 | one loop pass gives the best move, score and window of the search's pass, with the board back as undo leaves it |
| Players.AI.Explore | qirkat/AI.java:76-78 | the pass makes the move and searches a copy one ply shallower for the other side, children of a max node saving their move |
| SearchProps.SearchLeaf | qirkat/AI.java:66-71 | at depth 0 or on a finished game the search returns the static score, within the winning bounds, and leaves the board and the last found move alone |
| SearchProps.MinimaxBounds | qirkat/AI.java:15-19 | the minimax value of a position that is over or has a move lies within [-WINNING_VALUE, WINNING_VALUE] |
| SearchProps.SearchBounds | qirkat/AI.java:72-110 | on a position that is over or has a move, with an empty move stack and no explored chain landing on its start square, the search value lies within the winning bounds and a saving node finds a move, so the assertion before each saved move holds; after a game-ending move the later passes are finished leaves |
| SearchProps.SearchFailSoft | qirkat/AI.java:54-59 | fail-soft alpha-beta: a value at or below alpha bounds minimax from above, one at or above beta bounds it from below, one inside the window equals it |
| SearchProps.ScanMaxFirst | qirkat/AI.java:79-82 | the max loop keeps the first move reaching the best score: every earlier move is strictly worse |
| SearchProps.ScanMinFirst | qirkat/AI.java:96-99 | the min loop keeps the first move reaching the least score: every earlier move has a strictly greater value |
| SearchProps.SearchOptimal | qirkat/AI.java:60-114 | with the full window a node with moves returns its minimax value, within the winning bounds, and saves the first legal move reaching it |
| Searches.RootMove | qirkat/AI.java:40-48 | findMove() answers no move or a legal move of the game's position |
| Players.AI.FindMove | qirkat/AI.java:40-48 | the root searches a copy of the board to MAX_DEPTH with sense 1 for White and -1 for Black and the window (-INFTY, INFTY), and returns and records the root's move |
| SearchProps.FindMoveOptimal | qirkat/AI.java:40-48 | findMove() answers a legal move, the first whose minimax value MAX_DEPTH plies deep is best for the player's side |

## Left out

- The Observable notifications (`setChanged`, `notifyObservers`) and the read-only `ConstantBoard` view: user-interface plumbing with no effect on the board.
- `AI.myMove`: timing and the move report go through other classes, which are not part of this model.
- `Manual.java` and the rest of the game loop: `Game`, `Player`, `Main` and `Reporter` are not part of this model. The player receives the game's board as a parameter of `FindMove`.
- The char-coordinate overloads `get(c, r)`, `set(c, r, v)`, `makeMove(c0, r0, c1, r1[, next])` and `jumpPossible(c, r)` only convert coordinates through `index`. The getters `gameOver()` and `whoseMove()`, `nextMove`, `isMove` and `hashCode` are trivial. Java's `equals(Object)` also answers false for `null` and for an argument that is not a board; `Boards.Board.Equals` takes a board, so those cases are not modelled.
- `Move` and `PieceColor` are not part of this model beyond a minimal datatype each. Move identity is structural equality of the chain, `null` is `None`, and the opposite of EMPTY is taken to be EMPTY. `Boards.Board.LegalMove` and `Boards.Board.MakeMove` take a `Move`, not an `Option<Move>`, so Java's `legalMove(null)` answering false and `makeMove(null)` doing nothing are not modelled.
- Nothing is proved about the value of one particular depth-8 search; the search lemmas hold for every depth.
- The Java `assert` before each saved move (at the root, and at each minimising node directly below a maximising one) is not a runtime check: the model saves whatever best move exists, `None` when there is none. `SearchProps.SearchBounds` shows a move always exists on a position that is over or has a move, when no explored chain lands on its start square.
- Integer width: scores are Dafny integers. Every value stays within [-INFTY, INFTY] (`Searches.Search`), so Java's 32-bit `int` never wraps here.
- Exceptions of `setPieces` are results (`Option<SetupError>`): the error is returned instead of thrown, and the board is left unchanged as when Java throws.
- SearchProps.SearchFailSoft: holds only for positions whose explored moves are all undone exactly (Restoring); the source's undo breaks that after a game-ending move or a chain that lands on its start square.
- SearchProps.SearchBounds: stated for an empty move stack and no explored chain landing on its start square (NoCycles). Such a chain loses a piece on undo, so a node can face a board with no legal move that is not over, search no move and return INFTY or -INFTY. With a non-empty stack, undo after a game-ending move would pop a move older than the search.
- SearchProps.SearchOptimal: same Restoring hypothesis.
- SearchProps.FindMoveOptimal: same Restoring hypothesis, on a copy of the game's board.
- SearchProps.ScanMaxFirst: stated under the Restoring hypothesis of the node it scans.
- SearchProps.ScanMinFirst: stated under the Restoring hypothesis of the node it scans.
