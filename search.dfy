/**
 * The fixed-depth alpha-beta search of the AI player as functions of the
 * position: the static evaluation, one search call (findMove with a board,
 * depth, save flag, sense and window) and the loop over the moves of one
 * node. The AI class is proved to compute exactly these.
 */
module Searches {
  import opened PieceColors
  import opened Moves
  import opened MoveGen
  import opened Positions

  /** Depth of the search from the root. */
  const MAX_DEPTH: nat := 8
  /** Magnitude of a won position: Integer.MAX_VALUE - 1. */
  const WINNING_VALUE: int := 2147483646
  /** A magnitude above every value: Integer.MAX_VALUE. */
  const INFTY: int := 2147483647

  function Max(a: int, b: int): (r: int)
    ensures r >= a && r >= b && (r == a || r == b)
  {
    if a >= b then a else b
  }

  function Min(a: int, b: int): (r: int)
    ensures r <= a && r <= b && (r == a || r == b)
  {
    if a <= b then a else b
  }

  /** staticScore: White's pieces minus Black's while the game goes on; once it
      is over, WINNING_VALUE when White has strictly more pieces and
      -WINNING_VALUE otherwise (a tie counts as a win for Black). */
  function StaticScore(s: State): (r: int)
    ensures s.gameOver ==> (r == WINNING_VALUE <==> Count(s.grid, White) > Count(s.grid, Black))
    ensures s.gameOver ==> (r == -WINNING_VALUE <==> Count(s.grid, White) <= Count(s.grid, Black))
    ensures !s.gameOver ==> (r > 0 <==> Count(s.grid, White) > Count(s.grid, Black))
    ensures !s.gameOver ==> -|s.grid| <= r <= |s.grid|
  {
    var numWhite := Count(s.grid, White);
    var numBlack := Count(s.grid, Black);
    if s.gameOver then
      if numWhite > numBlack then WINNING_VALUE else -WINNING_VALUE
    else numWhite - numBlack
  }

  /** What one search call gives back: its value, the board it was handed as
      the loop left it, and the AI's last found move afterwards. */
  datatype Outcome = Outcome(score: int, board: State, last: Option<Move>)

  /** The loop variables of one search node: the board, the best move and
      score so far, the window, and the AI's last found move. */
  datatype Frame = Frame(board: State, best: Option<Move>, bestScore: int, alpha: int, beta: int, last: Option<Move>)

  /** Children of a maximising node minimise and the other way round. */
  function ChildSense(sense: int): (r: int)
    ensures (sense == 1 ==> r == -1) && (sense != 1 ==> r == 1)
  {
    if sense == 1 then -1 else 1
  }

  /** The value a node starts its loop from: -INFTY when maximising, INFTY otherwise. */
  function Worst(sense: int): (r: int)
    ensures r == INFTY || r == -INFTY
    ensures (r == -INFTY) == (sense == 1)
  {
    if sense == 1 then -INFTY else INFTY
  }

  /** findMove(board, depth, saveMove, sense, alpha, beta): the static score at
      depth 0 or on a finished game, leaving the last found move alone;
      otherwise the loop over the legal moves, after which the node's best move
      becomes the last found move when SAVEMOVE is set. */
  function Search(b: State, depth: nat, saveMove: bool, sense: int, alpha: int, beta: int, last: Option<Move>): (r: Outcome)
    requires WellFormed(b)
    ensures WellFormed(r.board)
    ensures -INFTY <= r.score <= INFTY
    ensures saveMove && depth > 0 && !b.gameOver ==> r.last == None || r.last.value in Legal(b)
    decreases depth, 1, 0
  {
    if depth == 0 || b.gameOver then Outcome(StaticScore(b), b, last)
    else
      var f := Scan(sense, Legal(b), 0, depth, Frame(b, None, Worst(sense), alpha, beta, last));
      Outcome(f.bestScore, f.board, if saveMove then f.best else f.last)
  }

  /** One pass of the loop of a search node on move M: make it, search a fresh
      copy of the result one level shallower with the opposite sense (children
      of a maximising node save their move, those of a minimising node do
      not), keep the move when its value is strictly better, narrow the window
      (alpha when maximising, beta otherwise) and undo. */
  function Step(sense: int, m: Move, depth: nat, f: Frame): (r: Frame)
    requires WellFormed(f.board) && depth >= 1
    requires -INFTY <= f.bestScore <= INFTY
    ensures WellFormed(r.board) && -INFTY <= r.bestScore <= INFTY
    ensures sense == 1 ==> r.bestScore >= f.bestScore && r.alpha >= f.alpha && r.beta == f.beta
    ensures sense != 1 ==> r.bestScore <= f.bestScore && r.beta <= f.beta && r.alpha == f.alpha
    ensures r.best == f.best || r.best == Some(m)
    ensures r.bestScore != f.bestScore ==> r.best == Some(m)
    decreases depth, 0, 0
  {
    var made := MakeMoveState(f.board, m);
    var child := Search(CopyState(made), depth - 1, sense == 1, ChildSense(sense), f.alpha, f.beta, f.last);
    var better := if sense == 1 then child.score > f.bestScore else child.score < f.bestScore;
    var best := if better then Some(m) else f.best;
    var bestScore := if better then child.score else f.bestScore;
    var alpha := if sense == 1 then Max(bestScore, f.alpha) else f.alpha;
    var beta := if sense == 1 then f.beta else Min(bestScore, f.beta);
    Frame(UndoState(made), best, bestScore, alpha, beta, child.last)
  }

  /** The loop of a search node from move I on, which stops as soon as
      beta <= alpha. */
  function Scan(sense: int, moves: seq<Move>, i: nat, depth: nat, f: Frame): (r: Frame)
    requires WellFormed(f.board) && i <= |moves| && depth >= 1
    requires -INFTY <= f.bestScore <= INFTY
    ensures WellFormed(r.board)
    ensures -INFTY <= r.bestScore <= INFTY
    ensures sense == 1 ==> r.bestScore >= f.bestScore && r.alpha >= f.alpha && r.beta == f.beta
    ensures sense != 1 ==> r.bestScore <= f.bestScore && r.beta <= f.beta && r.alpha == f.alpha
    ensures r.best == f.best || (r.best.Some? && r.best.value in moves[i..])
    ensures r.bestScore != f.bestScore ==> r.best.Some? && r.best.value in moves[i..]
    decreases depth, 0, |moves| - i + 1
  {
    if i == |moves| then f
    else
      var next := Step(sense, moves[i], depth, f);
      if next.beta <= next.alpha then next else Scan(sense, moves, i + 1, depth, next)
  }

  /** The child search that the loop pass on M runs, and what the pass makes
      of its value. */
  lemma StepFacts(sense: int, m: Move, depth: nat, f: Frame)
    requires WellFormed(f.board) && depth >= 1 && -INFTY <= f.bestScore <= INFTY
    ensures var made := MakeMoveState(f.board, m);
      var o := Search(CopyState(made), depth - 1, sense == 1, ChildSense(sense), f.alpha, f.beta, f.last);
      var better := if sense == 1 then o.score > f.bestScore else o.score < f.bestScore;
      var r := Step(sense, m, depth, f);
      r.board == UndoState(made) && r.last == o.last
      && r.best == (if better then Some(m) else f.best)
      && r.bestScore == (if better then o.score else f.bestScore)
      && r.alpha == (if sense == 1 then Max(r.bestScore, f.alpha) else f.alpha)
      && r.beta == (if sense == 1 then f.beta else Min(r.bestScore, f.beta))
  {
  }

  /** One more pass of the loop, or its end. */
  lemma ScanNext(sense: int, moves: seq<Move>, i: nat, depth: nat, f: Frame)
    requires WellFormed(f.board) && i < |moves| && depth >= 1 && -INFTY <= f.bestScore <= INFTY
    ensures var next := Step(sense, moves[i], depth, f);
      Scan(sense, moves, i, depth, f) == if next.beta <= next.alpha then next else Scan(sense, moves, i + 1, depth, next)
  {
  }

  /** findMove(): search a copy of the game's board to MAX_DEPTH with the full
      window, maximising for White and minimising for Black, and answer the
      last found move afterwards (LAST, its value before the call, when the
      root does not save one). */
  function RootMove(s: State, myColor: PieceColor, last: Option<Move>): (m: Option<Move>)
    requires WellFormed(s)
    ensures !s.gameOver ==> m == None || m.value in Legal(s)
  {
    var sense := if myColor == White then 1 else -1;
    Search(CopyState(s), MAX_DEPTH, true, sense, -INFTY, INFTY, last).last
  }
}
