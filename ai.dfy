/**
 * The AI player: a depth-first alpha-beta search over a board that it changes
 * in place with makeMove and undo, searching each child on a fresh copy. Each
 * method is proved to compute exactly the functions of Searches, whose
 * properties SearchProps proves.
 */
module Players {
  import opened PieceColors
  import opened Moves
  import opened Positions
  import opened Searches
  import opened Boards

  class AI {
    /** The side this player moves for. */
    const myColor: PieceColor
    /** The move found by the last search call that saved one. */
    var lastFoundMove: Option<Move>

    /** A new AI playing MYCOLOR that has found no move yet. */
    constructor (myColor: PieceColor)
      ensures this.myColor == myColor && lastFoundMove == None
    {
      this.myColor := myColor;
      lastFoundMove := None;
    }

    /** findMove(): search a fresh copy of BOARD, the game's board, to
        MAX_DEPTH with the full window, maximising for White and minimising
        for Black, and answer the last found move; BOARD is left as it was. */
    method FindMove(board: Board) returns (m: Option<Move>)
      requires board.Valid()
      modifies this
      ensures m == RootMove(board.Model(), myColor, old(lastFoundMove)) && lastFoundMove == m
    {
      var b := new Board.CopyOf(board);
      var score;
      if myColor == White {
        score := Search(b, MAX_DEPTH, true, 1, -INFTY, INFTY);
      } else {
        score := Search(b, MAX_DEPTH, true, -1, -INFTY, INFTY);
      }
      m := lastFoundMove;
    }

    /** findMove(board, depth, saveMove, sense, alpha, beta): the value of
        BOARD searched DEPTH plies deep, maximising when SENSE is 1 and
        minimising otherwise, inside the window (ALPHA, BETA). It returns the
        value, leaves BOARD as the loop of makeMove and undo leaves it, and
        records the best move in the last found move when SAVEMOVE is set. The
        source writes one loop per sense; they differ only inside the pass,
        so here one loop calls Visit, which branches on the sense. */
    method Search(board: Board, depth: nat, saveMove: bool, sense: int, alpha: int, beta: int) returns (score: int)
      requires board.Valid()
      modifies this, board, board.grid, board.horizontalMove
      ensures board.Valid()
      ensures var r := Searches.Search(old(board.Model()), depth, saveMove, sense, alpha, beta, old(lastFoundMove));
        score == r.score && board.Model() == r.board && lastFoundMove == r.last
      decreases depth, 1, 0
    {
      var moves := board.GetMoves();
      if depth == 0 {
        score := StaticScore(board);
        return;
      }
      if board.gameOver {
        score := StaticScore(board);
        return;
      }
      ghost var b0 := board.Model();
      ghost var init := Frame(b0, None, Worst(sense), alpha, beta, lastFoundMove);
      ghost var last0 := lastFoundMove;
      assert moves == Legal(b0);
      assert Searches.Search(b0, depth, saveMove, sense, alpha, beta, last0)
        == var r := Scan(sense, moves, 0, depth, init); Outcome(r.bestScore, r.board, if saveMove then r.best else r.last);
      hide Searches.Search, Step, MakeMoveState, UndoState, CopyState, Legal;
      var best: Option<Move> := None;
      var bestScore := if sense == 1 then -INFTY else INFTY;
      var a, z := alpha, beta;
      var i := 0;
      while i < |moves|
        invariant board.Valid() && 0 <= i <= |moves| && -INFTY <= bestScore <= INFTY
        invariant Scan(sense, moves, 0, depth, init)
          == Scan(sense, moves, i, depth, Frame(board.Model(), best, bestScore, a, z, lastFoundMove))
        decreases |moves| - i
      {
        ghost var f := Frame(board.Model(), best, bestScore, a, z, lastFoundMove);
        ScanNext(sense, moves, i, depth, f);
        hide Scan;
        best, bestScore, a, z := Visit(board, moves[i], depth, sense, best, bestScore, a, z);
        ghost var next := Frame(board.Model(), best, bestScore, a, z, lastFoundMove);
        assert Step(sense, moves[i], depth, f) == next;
        if z <= a {
          assert Scan(sense, moves, 0, depth, init) == next;
          break;
        }
        assert Scan(sense, moves, 0, depth, init) == Scan(sense, moves, i + 1, depth, next);
        i := i + 1;
        assert next == Frame(board.Model(), best, bestScore, a, z, lastFoundMove);
      }
      if saveMove {
        lastFoundMove := best;
      }
      score := bestScore;
    }

    /** One pass of the loop of findMove on MOVE: make it and search a copy,
        keep MOVE when its value is strictly better than BEST's, narrow the
        window on this node's side (alpha when maximising, beta otherwise) and
        undo. */
    method Visit(board: Board, move: Move, depth: nat, sense: int, best: Option<Move>, bestScore: int, alpha: int, beta: int)
      returns (best': Option<Move>, bestScore': int, alpha': int, beta': int)
      requires board.Valid() && depth >= 1 && -INFTY <= bestScore <= INFTY
      modifies this, board, board.grid, board.horizontalMove
      ensures board.Valid() && -INFTY <= bestScore' <= INFTY
      ensures Step(sense, move, depth, Frame(old(board.Model()), best, bestScore, alpha, beta, old(lastFoundMove)))
        == Frame(board.Model(), best', bestScore', alpha', beta', lastFoundMove)
      decreases depth, 0, 1
    {
      StepFacts(sense, move, depth, Frame(board.Model(), best, bestScore, alpha, beta, lastFoundMove));
      hide Step, Searches.Search, MakeMoveState, UndoState, CopyState, Legal;
      ghost var made := MakeMoveState(board.Model(), move);
      var value := Explore(board, move, depth, sense, alpha, beta);
      best', bestScore', alpha', beta' := best, bestScore, alpha, beta;
      if sense == 1 {
        if value > bestScore {
          best', bestScore' := Some(move), value;
        }
        alpha' := Max(bestScore', alpha);
      } else {
        if value < bestScore {
          best', bestScore' := Some(move), value;
        }
        beta' := Min(bestScore', beta);
      }
      assert board.Model() == made;
      board.Undo();
    }

    /** The first half of a pass: make MOVE on BOARD and search a fresh copy
        of the result one ply shallower for the other side; a maximising
        node's children save their move, a minimising node's do not. */
    method Explore(board: Board, move: Move, depth: nat, sense: int, alpha: int, beta: int) returns (value: int)
      requires board.Valid() && depth >= 1
      modifies this, board, board.grid, board.horizontalMove
      ensures board.Valid() && board.Model() == MakeMoveState(old(board.Model()), move)
      ensures var o := Searches.Search(CopyState(board.Model()), depth - 1, sense == 1, ChildSense(sense), alpha, beta, old(lastFoundMove));
        value == o.score && lastFoundMove == o.last
      decreases depth, 0, 0
    {
      hide Searches.Search, MakeMoveState, UndoState, CopyState, Legal;
      board.MakeMove(move);
      var child := new Board.CopyOf(board);
      if sense == 1 {
        value := Search(child, depth - 1, true, -1, alpha, beta);
      } else {
        value := Search(child, depth - 1, false, 1, alpha, beta);
      }
    }

    /** staticScore: the piece difference while the game goes on, and the
        winning value of the side with more pieces once it is over. */
    method StaticScore(board: Board) returns (score: int)
      requires board.Valid()
      ensures score == Searches.StaticScore(board.Model())
    {
      var numWhite: int := board.PieceNumber(White);
      var numBlack: int := board.PieceNumber(Black);
      score := numWhite - numBlack;
      if board.gameOver {
        if numWhite > numBlack {
          return WINNING_VALUE;
        } else {
          return -WINNING_VALUE;
        }
      }
    }
  }
}
