/**
 * What the alpha-beta search computes. Minimax is an independent reference
 * definition of the value of a position; the search is proved to be a
 * fail-soft alpha-beta search of it, to keep the first best move, and to stay
 * within the winning bounds — for positions where undoing each explored move
 * gives back the position it was made on (Restoring). Undo does not restore
 * the game-over flag (PositionProps.GameOverPersists) and loses a piece when
 * a capture chain lands back on its start square
 * (PositionProps.CycleUndoLosesPiece), so that hypothesis is needed: without
 * it later siblings of such a move are searched on a different board.
 */
module SearchProps {
  import opened PieceColors
  import opened Moves
  import opened MoveGen
  import opened MoveGenProps
  import opened Positions
  import opened PositionProps
  import opened Searches

  /** The better of A and B for the side SENSE (maximising when SENSE is 1). */
  function Join(sense: int, a: int, b: int): int
  {
    if sense == 1 then Max(a, b) else Min(a, b)
  }

  /** The minimax value of B searched DEPTH plies deep for the side SENSE: the
      static score at depth 0 or on a finished game, otherwise the best value
      of its legal moves. */
  function Minimax(b: State, depth: nat, sense: int): (v: int)
    requires WellFormed(b)
    ensures -INFTY <= v <= INFTY
    decreases depth, 1, 0
  {
    if depth == 0 || b.gameOver then StaticScore(b)
    else Best(b, sense, Legal(b), depth)
  }

  /** The best value among MOVES for the side SENSE; the worst value for that
      side when there are none. */
  function Best(b: State, sense: int, moves: seq<Move>, depth: nat): (v: int)
    requires WellFormed(b) && depth >= 1
    ensures -INFTY <= v <= INFTY
    decreases depth, 0, |moves| + 1
  {
    if moves == [] then Worst(sense)
    else Join(sense, ChildValue(b, moves[0], depth, sense), Best(b, sense, moves[1..], depth))
  }

  /** The minimax value of the position after M, one ply shallower, for the
      other side. */
  function ChildValue(b: State, m: Move, depth: nat, sense: int): (v: int)
    requires WellFormed(b) && depth >= 1
    ensures -INFTY <= v <= INFTY
    decreases depth, 0, 0
  {
    Minimax(CopyState(MakeMoveState(b, m)), depth - 1, ChildSense(sense))
  }

  /** Undoing each legal move of B, and of every position searched below it to
      DEPTH plies, gives back the position the move was made on. */
  ghost predicate Restoring(b: State, depth: nat)
    requires WellFormed(b)
    decreases depth
  {
    depth == 0 || b.gameOver ||
    forall m :: m in Legal(b) ==>
      UndoState(MakeMoveState(b, m)) == b && Restoring(CopyState(MakeMoveState(b, m)), depth - 1)
  }

  /** The game is over or the side to move has a move. Boards reached by
      makeMove and setPieces are live. */
  predicate Live(b: State)
    requires WellFormed(b)
  {
    b.gameOver || Legal(b) != []
  }

  /** A legal move leads to a live position: makeMove ends the game when the
      side to move next has no move. */
  lemma MadeLive(b: State, m: Move)
    requires WellFormed(b) && m in Legal(b)
    ensures Live(CopyState(MakeMoveState(b, m)))
  {
  }

  /** A move whose chain never lands on its start square and that does not end
      the game is undone exactly. */
  lemma RestoresWhen(b: State, m: Move)
    requires WellFormed(b) && m in Legal(b) && m.from !in Landings(m) && !MakeMoveState(b, m).gameOver
    ensures UndoState(MakeMoveState(b, m)) == b
  {
    MakeUndoRoundTrip(b, m);
    LegalMovesShape(b.grid, b.horizontalMove, b.whoseMove, b.gameOver);
  }

  /** The minimax value of a live position is a static score: within the
      winning bounds, strictly inside (-INFTY, INFTY). */
  lemma {:induction false} MinimaxBounds(b: State, depth: nat, sense: int)
    requires WellFormed(b) && Live(b)
    ensures -WINNING_VALUE <= Minimax(b, depth, sense) <= WINNING_VALUE
    decreases depth, 1, 0
  {
    if depth > 0 && !b.gameOver {
      BestBounds(b, sense, Legal(b), depth);
    }
  }

  lemma {:induction false} BestBounds(b: State, sense: int, moves: seq<Move>, depth: nat)
    requires WellFormed(b) && depth >= 1 && moves != [] && forall m :: m in moves ==> m in Legal(b)
    ensures -WINNING_VALUE <= Best(b, sense, moves, depth) <= WINNING_VALUE
    decreases depth, 0, |moves| + 1
  {
    MadeLive(b, moves[0]);
    MinimaxBounds(CopyState(MakeMoveState(b, moves[0])), depth - 1, ChildSense(sense));
    if |moves| > 1 {
      BestBounds(b, sense, moves[1..], depth);
    }
  }

  /** A leaf of the search: the static score, within the winning bounds, with
      the board and the last found move left as they were. */
  lemma SearchLeaf(b: State, depth: nat, saveMove: bool, sense: int, alpha: int, beta: int, last: Option<Move>)
    requires WellFormed(b) && (depth == 0 || b.gameOver)
    ensures var r := Search(b, depth, saveMove, sense, alpha, beta, last);
      r.score == StaticScore(b) && r.board == b && r.last == last
      && -WINNING_VALUE <= r.score <= WINNING_VALUE
  {
  }

  /** The search is a fail-soft alpha-beta search of the minimax value M: a
      value V at or below ALPHA bounds M from above, one at or above BETA
      bounds it from below, and one strictly inside the window is M. */
  lemma {:induction false} SearchFailSoft(b: State, depth: nat, saveMove: bool, sense: int, alpha: int, beta: int, last: Option<Move>)
    requires WellFormed(b) && Restoring(b, depth) && -INFTY <= alpha < beta <= INFTY
    ensures var v, M := Search(b, depth, saveMove, sense, alpha, beta, last).score, Minimax(b, depth, sense);
      (v <= alpha ==> M <= v) && (v >= beta ==> M >= v) && (alpha < v < beta ==> M == v)
    decreases depth, 1, 0
  {
    if depth > 0 && !b.gameOver {
      var moves := Legal(b);
      assert moves[0..] == moves;
      if sense == 1 {
        ScanMax(b, depth, moves, 0, Frame(b, None, -INFTY, alpha, beta, last), alpha, -INFTY);
      } else {
        ScanMin(b, depth, sense, moves, 0, Frame(b, None, INFTY, alpha, beta, last), beta, INFTY);
      }
    }
  }

  /** The best value of MOVES from I on, one move at a time. */
  lemma BestNext(b: State, sense: int, moves: seq<Move>, i: nat, depth: nat)
    requires WellFormed(b) && depth >= 1 && i <= |moves|
    ensures i == |moves| ==> Best(b, sense, moves[i..], depth) == Worst(sense)
    ensures i < |moves| ==>
      Best(b, sense, moves[i..], depth) == Join(sense, ChildValue(b, moves[i], depth, sense), Best(b, sense, moves[i + 1..], depth))
  {
    if i < |moves| {
      assert moves[i..][1..] == moves[i + 1..];
    } else {
      assert moves[i..] == [];
    }
  }

  /** The arithmetic of one maximising pass: the child's value C, fail-soft
      for the window (ALPHA, BETA) with minimax value MC, keeps the loop
      invariant or closes the window with a value the moves seen reach. */
  lemma MaxPass(a0: int, beta: int, B: int, alpha: int, P: int, c: int, mc: int)
    requires -INFTY <= a0 < beta <= INFTY && alpha == Max(B, a0) && alpha < beta
    requires -INFTY <= P <= B && (B > a0 ==> P == B)
    requires (c <= alpha ==> mc <= c) && (c >= beta ==> mc >= c) && (alpha < c < beta ==> mc == c)
    ensures var nB := if c > B then c else B;
      Max(nB, alpha) == Max(nB, a0)
      && (Max(nB, alpha) < beta ==> -INFTY <= Max(P, mc) <= nB && (nB > a0 ==> Max(P, mc) == nB))
      && (Max(nB, alpha) >= beta ==> nB >= beta && Max(P, mc) >= nB)
  {
  }

  /** The arithmetic of one minimising pass, the mirror image of MaxPass. */
  lemma MinPass(b0: int, alpha: int, B: int, beta: int, P: int, c: int, mc: int)
    requires -INFTY <= alpha < b0 <= INFTY && beta == Min(B, b0) && alpha < beta
    requires B <= P <= INFTY && (B < b0 ==> P == B)
    requires (c <= alpha ==> mc <= c) && (c >= beta ==> mc >= c) && (alpha < c < beta ==> mc == c)
    ensures var nB := if c < B then c else B;
      Min(nB, beta) == Min(nB, b0)
      && (alpha < Min(nB, beta) ==> nB <= Min(P, mc) <= INFTY && (nB < b0 ==> Min(P, mc) == nB))
      && (alpha >= Min(nB, beta) ==> nB <= alpha && Min(P, mc) <= nB)
  {
  }

  lemma Associative(x: int, y: int, z: int)
    ensures Max(x, Max(y, z)) == Max(Max(x, y), z)
    ensures Min(x, Min(y, z)) == Min(Min(x, y), z)
  {
  }

  /** One maximising pass on move I keeps the board, and either keeps the
      loop invariant of ScanMax or closes the window with a value that the
      moves seen reach. */
  lemma MaxFrame(b: State, depth: nat, moves: seq<Move>, i: nat, f: Frame, a0: int, P: int)
    requires WellFormed(b) && depth >= 1 && !b.gameOver && Restoring(b, depth)
    requires moves == Legal(b) && i < |moves| && f.board == b
    requires -INFTY <= a0 < f.beta <= INFTY
    requires f.alpha == Max(f.bestScore, a0) && f.alpha < f.beta
    requires -INFTY <= P <= f.bestScore <= INFTY
    requires f.bestScore > a0 ==> P == f.bestScore
    ensures var next, mc := Step(1, moves[i], depth, f), ChildValue(b, moves[i], depth, 1);
      next.board == b && next.beta == f.beta && next.alpha == Max(next.bestScore, a0)
      && (next.alpha < next.beta ==> -INFTY <= Max(P, mc) <= next.bestScore <= INFTY && (next.bestScore > a0 ==> Max(P, mc) == next.bestScore))
      && (next.alpha >= next.beta ==> next.bestScore >= f.beta && Max(P, mc) >= next.bestScore)
    decreases depth, 0, 0
  {
    hide Search, Scan, Step, Best, Minimax, Legal, MakeMoveState, UndoState, CopyState;
    var m := moves[i];
    var made := MakeMoveState(b, m);
    var child := CopyState(made);
    assert UndoState(made) == b && Restoring(child, depth - 1);
    hide Restoring;
    SearchFailSoft(child, depth - 1, true, -1, f.alpha, f.beta, f.last);
    assert ChildValue(b, m, depth, 1) == Minimax(child, depth - 1, -1);
    hide ChildValue, WellFormed;
    StepFacts(1, m, depth, f);
    MaxPass(a0, f.beta, f.bestScore, f.alpha, P, Search(child, depth - 1, true, -1, f.alpha, f.beta, f.last).score, Minimax(child, depth - 1, -1));
  }

  /** One minimising pass, the mirror image of MaxFrame. */
  lemma MinFrame(b: State, depth: nat, sense: int, moves: seq<Move>, i: nat, f: Frame, b0: int, P: int)
    requires WellFormed(b) && depth >= 1 && !b.gameOver && Restoring(b, depth) && sense != 1
    requires moves == Legal(b) && i < |moves| && f.board == b
    requires -INFTY <= f.alpha < b0 <= INFTY
    requires f.beta == Min(f.bestScore, b0) && f.alpha < f.beta
    requires -INFTY <= f.bestScore <= P <= INFTY
    requires f.bestScore < b0 ==> P == f.bestScore
    ensures var next, mc := Step(sense, moves[i], depth, f), ChildValue(b, moves[i], depth, sense);
      next.board == b && next.alpha == f.alpha && next.beta == Min(next.bestScore, b0)
      && (f.alpha < next.beta ==> -INFTY <= next.bestScore <= Min(P, mc) <= INFTY && (next.bestScore < b0 ==> Min(P, mc) == next.bestScore))
      && (f.alpha >= next.beta ==> next.bestScore <= f.alpha && Min(P, mc) <= next.bestScore)
    decreases depth, 0, 0
  {
    hide Search, Scan, Step, Best, Minimax, Legal, MakeMoveState, UndoState, CopyState;
    var m := moves[i];
    var made := MakeMoveState(b, m);
    var child := CopyState(made);
    assert UndoState(made) == b && Restoring(child, depth - 1);
    hide Restoring;
    SearchFailSoft(child, depth - 1, false, 1, f.alpha, f.beta, f.last);
    assert ChildValue(b, m, depth, sense) == Minimax(child, depth - 1, 1);
    hide ChildValue, WellFormed;
    StepFacts(sense, m, depth, f);
    MinPass(b0, f.alpha, f.bestScore, f.beta, P, Search(child, depth - 1, false, 1, f.alpha, f.beta, f.last).score, Minimax(child, depth - 1, 1));
  }

  /** The maximising loop from move I on, where P is the value of the moves
      already scanned and A0 the alpha the node was called with. */
  lemma {:induction false} ScanMax(b: State, depth: nat, moves: seq<Move>, i: nat, f: Frame, a0: int, P: int)
    requires WellFormed(b) && depth >= 1 && !b.gameOver && Restoring(b, depth)
    requires moves == Legal(b) && i <= |moves| && f.board == b
    requires -INFTY <= a0 < f.beta <= INFTY
    requires f.alpha == Max(f.bestScore, a0) && f.alpha < f.beta
    requires -INFTY <= P <= f.bestScore <= INFTY
    requires f.bestScore > a0 ==> P == f.bestScore
    ensures var v, M := Scan(1, moves, i, depth, f).bestScore, Max(P, Best(b, 1, moves[i..], depth));
      (v <= a0 ==> M <= v) && (v >= f.beta ==> M >= v) && (a0 < v < f.beta ==> M == v)
    decreases depth, 0, |moves| - i + 1
  {
    hide Search, Scan, Step, Minimax, Legal, MakeMoveState, UndoState, CopyState, Restoring;
    BestNext(b, 1, moves, i, depth);
    if i < |moves| {
      MaxFrame(b, depth, moves, i, f, a0, P);
      ScanNext(1, moves, i, depth, f);
      var next, mc := Step(1, moves[i], depth, f), ChildValue(b, moves[i], depth, 1);
      var S := Best(b, 1, moves[i + 1..], depth);
      assert Best(b, 1, moves[i..], depth) == Max(mc, S);
      Associative(P, mc, S);
      hide Best, ChildValue, Join, Max, Min;
      if next.alpha < next.beta {
        assert Scan(1, moves, i, depth, f) == Scan(1, moves, i + 1, depth, next);
        ScanMax(b, depth, moves, i + 1, next, a0, Max(P, mc));
      } else {
        assert Scan(1, moves, i, depth, f) == next;
      }
    }
  }

  /** The minimising loop from move I on, where P is the value of the moves
      already scanned and B0 the beta the node was called with. */
  lemma {:induction false} ScanMin(b: State, depth: nat, sense: int, moves: seq<Move>, i: nat, f: Frame, b0: int, P: int)
    requires WellFormed(b) && depth >= 1 && !b.gameOver && Restoring(b, depth) && sense != 1
    requires moves == Legal(b) && i <= |moves| && f.board == b
    requires -INFTY <= f.alpha < b0 <= INFTY
    requires f.beta == Min(f.bestScore, b0) && f.alpha < f.beta
    requires -INFTY <= f.bestScore <= P <= INFTY
    requires f.bestScore < b0 ==> P == f.bestScore
    ensures var v, M := Scan(sense, moves, i, depth, f).bestScore, Min(P, Best(b, sense, moves[i..], depth));
      (v <= f.alpha ==> M <= v) && (v >= b0 ==> M >= v) && (f.alpha < v < b0 ==> M == v)
    decreases depth, 0, |moves| - i + 1
  {
    hide Search, Scan, Step, Minimax, Legal, MakeMoveState, UndoState, CopyState, Restoring;
    BestNext(b, sense, moves, i, depth);
    if i < |moves| {
      MinFrame(b, depth, sense, moves, i, f, b0, P);
      ScanNext(sense, moves, i, depth, f);
      var next, mc := Step(sense, moves[i], depth, f), ChildValue(b, moves[i], depth, sense);
      var S := Best(b, sense, moves[i + 1..], depth);
      assert Best(b, sense, moves[i..], depth) == Min(mc, S);
      Associative(P, mc, S);
      hide Best, ChildValue, Join, Max, Min;
      if f.alpha < next.beta {
        assert Scan(sense, moves, i, depth, f) == Scan(sense, moves, i + 1, depth, next);
        ScanMin(b, depth, sense, moves, i + 1, next, b0, Min(P, mc));
      } else {
        assert Scan(sense, moves, i, depth, f) == next;
      }
    }
  }

  /** The arithmetic of one maximising pass for the first best move: a pass
      that keeps its best score saw a child worth no more, one that raises it
      saw a child worth no more than the new score, exactly that when the new
      score is inside the window. */
  lemma MaxFirstPass(a0: int, beta: int, B: int, alpha: int, c: int, mc: int)
    requires -INFTY <= a0 < beta <= INFTY && alpha == Max(B, a0) && alpha < beta
    requires (c <= alpha ==> mc <= c) && (c >= beta ==> mc >= c) && (alpha < c < beta ==> mc == c)
    ensures var nB := if c > B then c else B;
      (nB == B ==> mc <= B && Max(nB, alpha) < beta)
      && (nB != B ==> B < nB && (Max(nB, alpha) < beta ==> mc <= nB) && (a0 < nB < beta ==> mc == nB))
  {
  }

  /** The mirror image of MaxFirstPass. */
  lemma MinFirstPass(b0: int, alpha: int, B: int, beta: int, c: int, mc: int)
    requires -INFTY <= alpha < b0 <= INFTY && beta == Min(B, b0) && alpha < beta
    requires (c <= alpha ==> mc <= c) && (c >= beta ==> mc >= c) && (alpha < c < beta ==> mc == c)
    ensures var nB := if c < B then c else B;
      (nB == B ==> mc >= B && alpha < Min(nB, beta))
      && (nB != B ==> nB < B && (alpha < Min(nB, beta) ==> mc >= nB) && (alpha < nB < b0 ==> mc == nB))
  {
  }

  /** One maximising pass on move I, seen from the move it keeps. */
  lemma MaxFirstFrame(b: State, depth: nat, moves: seq<Move>, i: nat, f: Frame, a0: int)
    requires WellFormed(b) && depth >= 1 && !b.gameOver && Restoring(b, depth)
    requires moves == Legal(b) && i < |moves| && f.board == b
    requires -INFTY <= a0 < f.beta <= INFTY && -INFTY <= f.bestScore
    requires f.alpha == Max(f.bestScore, a0) && f.alpha < f.beta
    ensures var next, cv := Step(1, moves[i], depth, f), ChildValue(b, moves[i], depth, 1);
      next.board == b && next.beta == f.beta && next.alpha == Max(next.bestScore, a0)
      && (next.bestScore == f.bestScore ==> next.best == f.best && cv <= f.bestScore && next.alpha < next.beta)
      && (next.bestScore != f.bestScore ==>
            next.best == Some(moves[i]) && f.bestScore < next.bestScore
            && (next.alpha < next.beta ==> cv <= next.bestScore) && (a0 < next.bestScore < f.beta ==> cv == next.bestScore))
    decreases depth, 0, 0
  {
    hide Search, Scan, Step, Best, Minimax, Legal, MakeMoveState, UndoState, CopyState;
    var m := moves[i];
    var made := MakeMoveState(b, m);
    var child := CopyState(made);
    assert UndoState(made) == b && Restoring(child, depth - 1);
    hide Restoring;
    SearchFailSoft(child, depth - 1, true, -1, f.alpha, f.beta, f.last);
    assert ChildValue(b, m, depth, 1) == Minimax(child, depth - 1, -1);
    hide ChildValue, WellFormed;
    StepFacts(1, m, depth, f);
    MaxFirstPass(a0, f.beta, f.bestScore, f.alpha, Search(child, depth - 1, true, -1, f.alpha, f.beta, f.last).score, Minimax(child, depth - 1, -1));
  }

  /** One minimising pass on move I, seen from the move it keeps. */
  lemma MinFirstFrame(b: State, depth: nat, sense: int, moves: seq<Move>, i: nat, f: Frame, b0: int)
    requires WellFormed(b) && depth >= 1 && !b.gameOver && Restoring(b, depth) && sense != 1
    requires moves == Legal(b) && i < |moves| && f.board == b
    requires -INFTY <= f.alpha < b0 <= INFTY && f.bestScore <= INFTY
    requires f.beta == Min(f.bestScore, b0) && f.alpha < f.beta
    ensures var next, cv := Step(sense, moves[i], depth, f), ChildValue(b, moves[i], depth, sense);
      next.board == b && next.alpha == f.alpha && next.beta == Min(next.bestScore, b0)
      && (next.bestScore == f.bestScore ==> next.best == f.best && cv >= f.bestScore && f.alpha < next.beta)
      && (next.bestScore != f.bestScore ==>
            next.best == Some(moves[i]) && next.bestScore < f.bestScore
            && (f.alpha < next.beta ==> cv >= next.bestScore) && (f.alpha < next.bestScore < b0 ==> cv == next.bestScore))
    decreases depth, 0, 0
  {
    hide Search, Scan, Step, Best, Minimax, Legal, MakeMoveState, UndoState, CopyState;
    var m := moves[i];
    var made := MakeMoveState(b, m);
    var child := CopyState(made);
    assert UndoState(made) == b && Restoring(child, depth - 1);
    hide Restoring;
    SearchFailSoft(child, depth - 1, false, 1, f.alpha, f.beta, f.last);
    assert ChildValue(b, m, depth, sense) == Minimax(child, depth - 1, 1);
    hide ChildValue, WellFormed;
    StepFacts(sense, m, depth, f);
    MinFirstPass(b0, f.alpha, f.bestScore, f.beta, Search(child, depth - 1, false, 1, f.alpha, f.beta, f.last).score, Minimax(child, depth - 1, 1));
  }

  /** X is at least as good as Y for the side SENSE. */
  predicate NoWorse(sense: int, x: int, y: int)
  {
    if sense == 1 then x >= y else x <= y
  }

  /** No move among the first N of MOVES is worth more than X to SENSE. */
  predicate NoneAbove(b: State, depth: nat, sense: int, moves: seq<Move>, n: nat, x: int)
    requires WellFormed(b) && depth >= 1 && n <= |moves|
  {
    forall k :: 0 <= k < n ==> NoWorse(sense, x, ChildValue(b, moves[k], depth, sense))
  }

  /** Every move among the first N of MOVES is worth strictly less than X to SENSE. */
  predicate AllBelow(b: State, depth: nat, sense: int, moves: seq<Move>, n: nat, x: int)
    requires WellFormed(b) && depth >= 1 && n <= |moves|
  {
    forall k :: 0 <= k < n ==> !NoWorse(sense, ChildValue(b, moves[k], depth, sense), x)
  }

  /** The prefix bound grows by one move worth no more than the new bound Y. */
  lemma NoneAboveNext(b: State, depth: nat, sense: int, moves: seq<Move>, n: nat, x: int, y: int)
    requires WellFormed(b) && depth >= 1 && n < |moves|
    requires NoneAbove(b, depth, sense, moves, n, x) && NoWorse(sense, y, x)
    requires NoWorse(sense, y, ChildValue(b, moves[n], depth, sense))
    ensures NoneAbove(b, depth, sense, moves, n + 1, y)
  {
    hide ChildValue, Minimax, Best, MakeMoveState, Legal;
    forall k | 0 <= k < n + 1
      ensures NoWorse(sense, y, ChildValue(b, moves[k], depth, sense))
    {
      if k < n {
        assert NoWorse(sense, x, ChildValue(b, moves[k], depth, sense));
      }
    }
  }

  /** A prefix worth no more than X is worth strictly less than anything better than X. */
  lemma AllBelowOf(b: State, depth: nat, sense: int, moves: seq<Move>, n: nat, x: int, y: int)
    requires WellFormed(b) && depth >= 1 && n <= |moves|
    requires NoneAbove(b, depth, sense, moves, n, x) && !NoWorse(sense, x, y)
    ensures AllBelow(b, depth, sense, moves, n, y)
  {
    hide ChildValue, Minimax, Best, MakeMoveState, Legal;
  }

  /** The maximising loop keeps the first move J with the best score: every
      move before it is worth strictly less, and the move itself is worth its
      score when that lies inside the window. J0 is where the move kept so far
      stands. */
  lemma {:induction false} ScanMaxFirst(b: State, depth: nat, moves: seq<Move>, i: nat, f: Frame, a0: int, j0: nat) returns (j: nat)
    requires WellFormed(b) && depth >= 1 && !b.gameOver && Restoring(b, depth)
    requires moves == Legal(b) && i <= |moves| && f.board == b
    requires -INFTY <= a0 < f.beta <= INFTY && -INFTY <= f.bestScore <= INFTY
    requires f.alpha == Max(f.bestScore, a0) && f.alpha < f.beta
    requires NoneAbove(b, depth, 1, moves, i, f.bestScore)
    requires f.best.Some? ==>
      j0 < i && moves[j0] == f.best.value && AllBelow(b, depth, 1, moves, j0, f.bestScore)
      && (f.bestScore > a0 ==> ChildValue(b, moves[j0], depth, 1) == f.bestScore)
    ensures var r := Scan(1, moves, i, depth, f);
      r.best.Some? ==>
        j < |moves| && moves[j] == r.best.value && AllBelow(b, depth, 1, moves, j, r.bestScore)
        && (a0 < r.bestScore < f.beta ==> ChildValue(b, moves[j], depth, 1) == r.bestScore)
    decreases depth, 0, |moves| - i + 1
  {
    hide Search, Step, Minimax, Legal, MakeMoveState, UndoState, CopyState, Restoring, Best;
    if i == |moves| {
      j := j0;
    } else {
      MaxFirstFrame(b, depth, moves, i, f, a0);
      ScanNext(1, moves, i, depth, f);
      var next := Step(1, moves[i], depth, f);
      hide ChildValue, Max, Min, NoneAbove, AllBelow;
      if next.bestScore != f.bestScore {
        AllBelowOf(b, depth, 1, moves, i, f.bestScore, next.bestScore);
      }
      if next.alpha < next.beta {
        NoneAboveNext(b, depth, 1, moves, i, f.bestScore, next.bestScore);
        assert Scan(1, moves, i, depth, f) == Scan(1, moves, i + 1, depth, next);
        hide Scan;
        j := ScanMaxFirst(b, depth, moves, i + 1, next, a0, if next.bestScore == f.bestScore then j0 else i);
      } else {
        assert Scan(1, moves, i, depth, f) == next;
        j := i;
      }
    }
  }

  /** The mirror image of ScanMaxFirst: the first move with the least score. */
  lemma {:induction false} ScanMinFirst(b: State, depth: nat, sense: int, moves: seq<Move>, i: nat, f: Frame, b0: int, j0: nat) returns (j: nat)
    requires WellFormed(b) && depth >= 1 && !b.gameOver && Restoring(b, depth) && sense != 1
    requires moves == Legal(b) && i <= |moves| && f.board == b
    requires -INFTY <= f.alpha < b0 <= INFTY && -INFTY <= f.bestScore <= INFTY
    requires f.beta == Min(f.bestScore, b0) && f.alpha < f.beta
    requires NoneAbove(b, depth, sense, moves, i, f.bestScore)
    requires f.best.Some? ==>
      j0 < i && moves[j0] == f.best.value && AllBelow(b, depth, sense, moves, j0, f.bestScore)
      && (f.bestScore < b0 ==> ChildValue(b, moves[j0], depth, sense) == f.bestScore)
    ensures var r := Scan(sense, moves, i, depth, f);
      r.best.Some? ==>
        j < |moves| && moves[j] == r.best.value && AllBelow(b, depth, sense, moves, j, r.bestScore)
        && (f.alpha < r.bestScore < b0 ==> ChildValue(b, moves[j], depth, sense) == r.bestScore)
    decreases depth, 0, |moves| - i + 1
  {
    hide Search, Step, Minimax, Legal, MakeMoveState, UndoState, CopyState, Restoring, Best;
    if i == |moves| {
      j := j0;
    } else {
      MinFirstFrame(b, depth, sense, moves, i, f, b0);
      ScanNext(sense, moves, i, depth, f);
      var next := Step(sense, moves[i], depth, f);
      hide ChildValue, Max, Min, NoneAbove, AllBelow;
      if next.bestScore != f.bestScore {
        AllBelowOf(b, depth, sense, moves, i, f.bestScore, next.bestScore);
      }
      if f.alpha < next.beta {
        NoneAboveNext(b, depth, sense, moves, i, f.bestScore, next.bestScore);
        assert Scan(sense, moves, i, depth, f) == Scan(sense, moves, i + 1, depth, next);
        hide Scan;
        j := ScanMinFirst(b, depth, sense, moves, i + 1, next, b0, if next.bestScore == f.bestScore then j0 else i);
      } else {
        assert Scan(sense, moves, i, depth, f) == next;
        j := i;
      }
    }
  }

  /** No legal move of B, nor of any position searched below it to DEPTH
      plies, is a capture chain that lands on its own start square. */
  ghost predicate NoCycles(b: State, depth: nat)
    requires WellFormed(b)
    decreases depth
  {
    depth == 0 || b.gameOver ||
    forall m :: m in Legal(b) ==>
      m.from !in Landings(m) && NoCycles(CopyState(MakeMoveState(b, m)), depth - 1)
  }

  /** On a live position with an empty move stack, as findMove's copies are,
      every search value lies within the winning bounds, and a node that saves
      its move has one to save: the assertion before each saved move holds.
      A move that ends the game may be among those searched: undo then leaves
      the board over, and the later passes of the loop are finished leaves. */
  lemma {:induction false} SearchBounds(b: State, depth: nat, saveMove: bool, sense: int, alpha: int, beta: int, last: Option<Move>)
    requires WellFormed(b) && Live(b) && b.stack == [] && NoCycles(b, depth)
    ensures var r := Search(b, depth, saveMove, sense, alpha, beta, last);
      -WINNING_VALUE <= r.score <= WINNING_VALUE && (saveMove && depth > 0 && !b.gameOver ==> r.last.Some?)
    decreases depth, 1, 0
  {
    if depth > 0 && !b.gameOver {
      ScanBounds(b, depth, sense, Legal(b), 0, Frame(b, None, Worst(sense), alpha, beta, last));
    }
  }

  /** The loop of a live node: once a move is scanned the best score lies
      within the winning bounds and a best move is kept. The board is the
      node's own, or the node's with the game over after a game-ending move. */
  lemma {:induction false} ScanBounds(b: State, depth: nat, sense: int, moves: seq<Move>, i: nat, f: Frame)
    requires WellFormed(b) && depth >= 1 && !b.gameOver && b.stack == [] && NoCycles(b, depth)
    requires moves == Legal(b) && i <= |moves| && (f.board == b || f.board == b.(gameOver := true))
    requires (i < |moves| && f.bestScore == Worst(sense))
      || (-WINNING_VALUE <= f.bestScore <= WINNING_VALUE && f.best.Some?)
    ensures var r := Scan(sense, moves, i, depth, f);
      -WINNING_VALUE <= r.bestScore <= WINNING_VALUE && r.best.Some?
    decreases depth, 0, |moves| - i + 1
  {
    hide Search, Step, Minimax, Legal, MakeMoveState, UndoState, CopyState, NoCycles, Best;
    if i < |moves| {
      BoundsFrame(b, depth, sense, moves, i, f);
      ScanNext(sense, moves, i, depth, f);
      var next := Step(sense, moves[i], depth, f);
      if next.alpha < next.beta {
        assert Scan(sense, moves, i, depth, f) == Scan(sense, moves, i + 1, depth, next);
        hide Scan;
        ScanBounds(b, depth, sense, moves, i + 1, next);
      } else {
        assert Scan(sense, moves, i, depth, f) == next;
      }
    }
  }

  /** One pass of the loop of a live node. */
  lemma BoundsFrame(b: State, depth: nat, sense: int, moves: seq<Move>, i: nat, f: Frame)
    requires WellFormed(b) && depth >= 1 && !b.gameOver && b.stack == [] && NoCycles(b, depth)
    requires moves == Legal(b) && i < |moves| && (f.board == b || f.board == b.(gameOver := true))
    requires f.bestScore == Worst(sense) || (-WINNING_VALUE <= f.bestScore <= WINNING_VALUE && f.best.Some?)
    ensures var next := Step(sense, moves[i], depth, f);
      (next.board == b || next.board == b.(gameOver := true))
      && -WINNING_VALUE <= next.bestScore <= WINNING_VALUE && next.best.Some?
    decreases depth, 0, 1
  {
    if f.board == b {
      PassOnNode(b, depth, sense, moves[i], f);
    } else {
      PassOnOver(f.board, depth, sense, moves[i], f);
    }
  }

  /** A pass on the node's own board: the child is live, its search within
      the bounds, and undo gives back the node, over when M ended the game. */
  lemma PassOnNode(b: State, depth: nat, sense: int, m: Move, f: Frame)
    requires WellFormed(b) && depth >= 1 && !b.gameOver && b.stack == [] && NoCycles(b, depth)
    requires m in Legal(b) && f.board == b
    requires f.bestScore == Worst(sense) || (-WINNING_VALUE <= f.bestScore <= WINNING_VALUE && f.best.Some?)
    ensures var next := Step(sense, m, depth, f);
      (next.board == b || next.board == b.(gameOver := true))
      && -WINNING_VALUE <= next.bestScore <= WINNING_VALUE && next.best.Some?
    decreases depth, 0, 0
  {
    hide Search, Scan, Step, Best, Minimax, Legal, MakeMoveState, UndoState, CopyState, NoCycles, Live;
    NodeChild(b, depth, m);
    var child := CopyState(MakeMoveState(b, m));
    SearchBounds(child, depth - 1, sense == 1, ChildSense(sense), f.alpha, f.beta, f.last);
    StepFacts(sense, m, depth, f);
  }

  /** The child of a legal move M of a node searched for cycle-free chains:
      live, with an empty stack and cycle-free one ply less deep; undoing M
      gives back the node, over when M ended the game. */
  lemma NodeChild(b: State, depth: nat, m: Move)
    requires WellFormed(b) && depth >= 1 && !b.gameOver && b.stack == [] && NoCycles(b, depth)
    requires m in Legal(b)
    ensures var made := MakeMoveState(b, m); var child := CopyState(made);
      Live(child) && child.stack == [] && NoCycles(child, depth - 1)
      && (UndoState(made) == b || UndoState(made) == b.(gameOver := true))
  {
    assert m.from !in Landings(m);
    MadeLive(b, m);
    MakeUndoRoundTrip(b, m);
  }

  /** A pass on the node's board once the game is over: makeMove and undo do
      nothing and the child is a finished leaf. */
  lemma PassOnOver(b: State, depth: nat, sense: int, m: Move, f: Frame)
    requires WellFormed(b) && depth >= 1 && b.gameOver && b.stack == [] && f.board == b
    requires f.bestScore == Worst(sense) || (-WINNING_VALUE <= f.bestScore <= WINNING_VALUE && f.best.Some?)
    ensures var next := Step(sense, m, depth, f);
      next.board == b && -WINNING_VALUE <= next.bestScore <= WINNING_VALUE && next.best.Some?
  {
    assert Legal(b) == [];
    assert MakeMoveState(b, m) == b && UndoState(b) == b;
    SearchLeaf(CopyState(b), depth - 1, sense == 1, ChildSense(sense), f.alpha, f.beta, f.last);
    hide Search, Scan, Step, Best, Minimax, Legal, MakeMoveState, UndoState, CopyState;
    StepFacts(sense, m, depth, f);
  }

  /** A loop either keeps a best move or ends with the best move and score it
      started from. */
  lemma {:induction false} ScanKeeps(sense: int, moves: seq<Move>, i: nat, depth: nat, f: Frame)
    requires WellFormed(f.board) && i <= |moves| && depth >= 1 && -INFTY <= f.bestScore <= INFTY
    ensures var r := Scan(sense, moves, i, depth, f);
      r.best.Some? || (r.best == f.best && r.bestScore == f.bestScore)
    decreases |moves| - i
  {
    if i < |moves| {
      ScanNext(sense, moves, i, depth, f);
      var next := Step(sense, moves[i], depth, f);
      if next.alpha < next.beta {
        ScanKeeps(sense, moves, i + 1, depth, next);
      }
    }
  }

  /** M is the value for the side to move of the legal move at some index J
      of the generated list, and every move generated before it is strictly
      worse: the first best move a loop with a strict comparison keeps. */
  predicate FirstBest(b: State, depth: nat, sense: int, m: Move, M: int)
    requires WellFormed(b) && depth >= 1
  {
    exists j :: 0 <= j < |Legal(b)| && Legal(b)[j] == m
      && ChildValue(b, Legal(b)[j], depth, sense) == M && AllBelow(b, depth, sense, Legal(b), j, M)
  }

  /** A search with the full window on a position that has moves returns its
      minimax value, which lies within the winning bounds, and saves the first
      legal move reaching that value. */
  lemma SearchOptimal(b: State, depth: nat, sense: int, last: Option<Move>)
    requires WellFormed(b) && depth >= 1 && !b.gameOver && Legal(b) != [] && Restoring(b, depth)
    ensures var r, M := Search(b, depth, true, sense, -INFTY, INFTY, last), Minimax(b, depth, sense);
      r.score == M && -WINNING_VALUE <= M <= WINNING_VALUE && r.last.Some? && r.last.value in Legal(b)
      && FirstBest(b, depth, sense, r.last.value, M)
  {
    var moves := Legal(b);
    var f := Frame(b, None, Worst(sense), -INFTY, INFTY, last);
    assert Search(b, depth, true, sense, -INFTY, INFTY, last) == Outcome(Scan(sense, moves, 0, depth, f).bestScore, Scan(sense, moves, 0, depth, f).board, Scan(sense, moves, 0, depth, f).best);
    SearchFailSoft(b, depth, true, sense, -INFTY, INFTY, last);
    MinimaxBounds(b, depth, sense);
    ScanKeeps(sense, moves, 0, depth, f);
    hide Search, Step, Minimax, Legal, MakeMoveState, UndoState, CopyState, Restoring, Best, Scan, ChildValue;
    var j;
    if sense == 1 {
      j := ScanMaxFirst(b, depth, moves, 0, f, -INFTY, 0);
    } else {
      j := ScanMinFirst(b, depth, sense, moves, 0, f, INFTY, 0);
    }
    var r := Scan(sense, moves, 0, depth, f);
    assert AllBelow(b, depth, sense, moves, j, r.bestScore);
    assert 0 <= j < |moves| && moves[j] == r.best.value;
  }

  /** findMove() for a side to move that has a move, when undo restores every
      position the search explores: the move returned is the first legal move
      whose minimax value MAX_DEPTH plies deep is the best for that side. */
  lemma FindMoveOptimal(s: State, myColor: PieceColor, last: Option<Move>)
    requires WellFormed(s) && !s.gameOver && Legal(s) != [] && Restoring(CopyState(s), MAX_DEPTH)
    ensures var sense, m := (if myColor == White then 1 else -1), RootMove(s, myColor, last);
      var M := Minimax(CopyState(s), MAX_DEPTH, sense);
      m.Some? && m.value in Legal(s) && -WINNING_VALUE <= M <= WINNING_VALUE
      && FirstBest(CopyState(s), MAX_DEPTH, sense, m.value, M)
  {
    var sense := if myColor == White then 1 else -1;
    assert Legal(CopyState(s)) == Legal(s);
    SearchOptimal(CopyState(s), MAX_DEPTH, sense, last);
  }
}
