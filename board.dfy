/**
 * The board engine: the grid and the horizontal-move memory are arrays changed
 * in place, next to the side to move, the game-over flag and the two undo
 * stacks. Every method is proved to do exactly what the state functions of
 * Positions and the generator functions of MoveGen describe.
 */
module Boards {
  import opened PieceColors
  import opened Moves
  import opened MoveGen
  import opened MoveGenProps
  import opened Positions
  import opened PositionProps

  class Board {
    const grid: array<PieceColor>
    const horizontalMove: array<int>
    var whoseMove: PieceColor
    var gameOver: bool
    /** Moves made, top last. */
    var stack: seq<Move>
    /** Snapshots of the horizontal memory taken before each move, top last. */
    var stack1: seq<seq<int>>

    /** The position the board holds. */
    function Model(): State
      reads this, grid, horizontalMove
    {
      State(grid[..], horizontalMove[..], whoseMove, gameOver, stack, stack1)
    }

    predicate Valid()
      reads this, grid, horizontalMove
    {
      grid.Length == 25 && horizontalMove.Length == 25 && WellFormed(Model())
    }

    /** A new board in the opening position. */
    constructor ()
      ensures Valid() && fresh(grid) && fresh(horizontalMove)
      ensures Model() == ClearState([])
    {
      grid := new PieceColor[25](k => Empty);
      horizontalMove := new int[25](k => 0);
      whoseMove := White;
      gameOver := false;
      stack := [];
      stack1 := [];
      new;
      Clear();
    }

    /** A copy of B: its grid, memory, side to move and game-over flag, with
        stacks of its own that start empty. */
    constructor CopyOf(b: Board)
      requires b.Valid()
      ensures Valid() && fresh(grid) && fresh(horizontalMove)
      ensures Model() == CopyState(b.Model())
    {
      grid := new PieceColor[25](k => Empty);
      horizontalMove := new int[25](k => 0);
      whoseMove := White;
      gameOver := false;
      stack := [];
      stack1 := [];
      new;
      InternalCopy(b);
    }

    /** Back to the opening position, White to move; the move stack is kept. */
    method Clear()
      requires Valid()
      modifies this, grid, horizontalMove
      ensures Valid() && Model() == ClearState(old(stack))
    {
      whoseMove := White;
      gameOver := false;
      OpeningIsLayout();
      var failure := SetPieces(OPENING, Some(White));
    }

    method Copy(b: Board)
      requires Valid() && b.Valid()
      modifies this, grid, horizontalMove
      ensures Valid() && Model() == CopyInto(old(Model()), old(b.Model()))
    {
      InternalCopy(b);
    }

    /** Copy the squares, the memory, the side to move and the game-over flag
        of B, square by square; correct even when B is this board. */
    method InternalCopy(b: Board)
      requires Valid() && b.Valid()
      modifies this, grid, horizontalMove
      ensures Valid() && Model() == CopyInto(old(Model()), old(b.Model()))
    {
      whoseMove := b.whoseMove;
      for i := 0 to MAX_INDEX + 1
        modifies grid, horizontalMove
        invariant forall j :: 0 <= j < i ==> grid[j] == old(b.grid[j]) && horizontalMove[j] == old(b.horizontalMove[j])
        invariant forall j :: i <= j < 25 ==> b.grid[j] == old(b.grid[j]) && b.horizontalMove[j] == old(b.horizontalMove[j])
        invariant b.gameOver == old(b.gameOver) && whoseMove == old(b.whoseMove)
        invariant stack == old(stack) && stack1 == old(stack1)
      {
        grid[i] := b.grid[i];
        horizontalMove[i] := b.horizontalMove[i];
      }
      gameOver := b.gameOver;
    }

    /** setPieces: on a missing or EMPTY side, or a layout that is not 25 of
        b, w and - once whitespace is removed, report the error and change
        nothing; otherwise set the squares, clear the memory and its stack,
        pass the move to NEXTMOVE and mark the game over if that side cannot
        move. */
    method SetPieces(str: string, nextMove: Option<PieceColor>) returns (failure: Option<SetupError>)
      requires Valid()
      modifies this, grid, horizontalMove
      ensures Valid()
      ensures match Positions.SetPieces(old(Model()), str, nextMove)
        case Done(s) => failure == None && Model() == s
        case Failed(e) => failure == Some(e) && Model() == old(Model())
    {
      if nextMove == None || nextMove == Some(Empty) {
        return Some(BadPlayerColor);
      }
      var t := StripWhitespace(str);
      if !IsLayout(t) {
        return Some(BadBoardDescription);
      }
      gameOver := false;
      LoadGrid(t);
      ClearMemory();
      stack1 := [];
      whoseMove := nextMove.value;
      var moves := GetMoves();
      if |moves| == 0 {
        gameOver := true;
      }
      failure := None;
      assert Model() == Positioned(ParseLayout(t), nextMove.value, old(stack));
    }

    /** The grid loop of setPieces: square K gets the color of character K of
        the layout T. */
    method LoadGrid(t: string)
      requires grid.Length == 25 && IsLayout(t)
      modifies grid
      ensures grid[..] == ParseLayout(t)
    {
      for k := 0 to |t|
        invariant forall i :: 0 <= i < k ==> grid[i] == ColorOf(t[i])
      {
        match t[k] {
          case '-' => grid[k] := Empty;
          case 'b' => grid[k] := Black;
          case 'B' => grid[k] := Black;
          case 'w' => grid[k] := White;
          case 'W' => grid[k] := White;
          case _ =>
        }
      }
    }

    /** Clear the horizontal memory of every square. */
    method ClearMemory()
      requires horizontalMove.Length == 25
      modifies horizontalMove
      ensures horizontalMove[..] == Zeros()
    {
      for i := 0 to 25
        invariant forall j :: 0 <= j < i ==> horizontalMove[j] == 0
      {
        horizontalMove[i] := 0;
      }
    }

    method Get(k: int) returns (c: PieceColor)
      requires Valid() && ValidSquare(k)
      ensures c == Model().grid[k]
    {
      c := grid[k];
    }

    /** legalMove: MOV is among the moves getMoves lists. */
    method LegalMove(mov: Move) returns (r: bool)
      requires Valid()
      ensures r <==> mov in Legal(Model())
    {
      var checker := GetMoves();
      r := mov in checker;
    }

    method GetMoves() returns (moves: seq<Move>)
      requires Valid()
      ensures moves == Legal(Model())
    {
      moves := AddMoves([]);
    }

    /** getMoves(moves): append nothing once the game is over, otherwise the
        capture chains of every square when some capture exists, or else the
        single steps of every square, in square order. */
    method AddMoves(moves: seq<Move>) returns (result: seq<Move>)
      requires Valid()
      ensures result == moves + Legal(Model())
    {
      hide JumpChains, StepsFrom;
      ghost var g, hm, who := grid[..], horizontalMove[..], whoseMove;
      result := moves;
      if gameOver {
        return;
      }
      var jump := JumpPossible();
      if jump {
        for k := 0 to MAX_INDEX + 1
          invariant result == moves + AllJumps(g, who, k)
        {
          AppendAssoc(moves, AllJumps(g, who, k), JumpChains(g, who, k));
          result := AddJumps(result, k);
        }
        assert Legal(Model()) == AllJumps(g, who, 25);
      } else {
        for k := 0 to MAX_INDEX + 1
          invariant result == moves + AllSteps(g, hm, who, k)
        {
          AppendAssoc(moves, AllSteps(g, hm, who, k), StepsFrom(g, hm, who, k));
          result := AddSteps(result, k);
        }
        assert Legal(Model()) == AllSteps(g, hm, who, 25);
      }
    }

    /** getMoves(moves, k): append the single steps of the piece on K, scanning
        column offsets -1 .. 1 and forward-row offsets 0 .. 1. */
    method AddSteps(moves: seq<Move>, k: int) returns (result: seq<Move>)
      requires Valid() && ValidSquare(k)
      ensures result == moves + StepsFrom(grid[..], horizontalMove[..], whoseMove, k)
    {
      ghost var g, hm, who := grid[..], horizontalMove[..], whoseMove;
      result := moves;
      var c, r := Col(k), Row(k);
      var colorSign, lastRow;
      var diagonals := k % 2 == 0;
      if whoseMove == White {
        colorSign, lastRow := 1, 4;
      } else {
        colorSign, lastRow := -1, 0;
      }
      if grid[k] == whoseMove {
        for i := -1 to 2
          invariant result == moves + StepsUpTo(g, hm, who, k, i)
        {
          ghost var before := result;
          AppendAssoc(moves, StepsUpTo(g, hm, who, k, i), StepsColumn(g, hm, who, k, i, 2));
          for j := 0 to 2
            invariant result == before + StepsColumn(g, hm, who, k, i, j)
          {
            AppendAssoc(before, StepsColumn(g, hm, who, k, i, j), StepsAt(g, hm, who, k, i, j));
            result := TryStep(result, k, c, r, i, j, colorSign, lastRow, diagonals);
          }
        }
      }
    }

    /** The body of the step generator's inner loop: append the step from K by
        I columns and J rows forward when it passes the generator's test. */
    method TryStep(moves: seq<Move>, k: int, c: int, r: int, i: int, j: int, colorSign: int, lastRow: int, diagonals: bool)
      returns (result: seq<Move>)
      requires Valid() && ValidSquare(k) && c == Col(k) && r == Row(k) && diagonals == (k % 2 == 0) && 0 <= j < 2
      requires colorSign == ColorSign(whoseMove) && lastRow == LastRow(whoseMove)
      ensures result == moves + StepsAt(grid[..], horizontalMove[..], whoseMove, k, i, j)
    {
      var dr := j * colorSign;
      StepTest(grid[..], horizontalMove[..], whoseMove, k, i, j, colorSign, dr, lastRow, diagonals);
      result := moves;
      if ValidCoords(c + i, r + dr) && grid[Index(c + i, r + dr)] == Empty
         && (horizontalMove[k] == 0 || horizontalMove[k] != -i || j != 0)
         && r != lastRow && (diagonals || i == 0 || j == 0)
      {
        result := result + [Move(k, Index(c + i, r + dr), None)];
      }
    }

    /** getJumps: append the capture chains of the piece on K, found on a copy of the grid. */
    method AddJumps(moves: seq<Move>, k: int) returns (result: seq<Move>)
      requires Valid() && ValidSquare(k)
      ensures result == moves + JumpChains(grid[..], whoseMove, k)
    {
      var tBoard := CopyGrid(grid);
      var chains := JumpHelper(k, tBoard);
      result := moves + chains;
    }

    /** jumpHelper: the capture chains of the piece on K over the hypothetical
        grid TBOARD, scanning row offsets -1 .. 1 and column offsets -1 .. 1. */
    method JumpHelper(k: int, tBoard: array<PieceColor>) returns (moves: seq<Move>)
      requires whoseMove != Empty && ValidSquare(k) && tBoard.Length == 25
      ensures moves == JumpChains(tBoard[..], whoseMove, k)
      decreases Count(tBoard[..], Opposite(whoseMove)), 2
    {
      moves := [];
      ghost var tb := tBoard[..];
      var who := whoseMove;
      if tBoard[k] == who {
        for r := -1 to 2
          invariant moves == ChainsRows(tb, who, k, r)
        {
          ghost var before := moves;
          for c := -1 to 2
            invariant moves == before + ChainsCols(tb, who, k, r, c)
          {
            AppendAssoc(before, ChainsCols(tb, who, k, r, c), ChainsDir(tb, who, k, r, c));
            var chains := JumpDirection(k, tBoard, r, c);
            moves := moves + chains;
          }
        }
      }
    }

    /** The body of jumpHelper's loops for direction (R, C): when the piece on K
        can capture that way, copy TBOARD, play the capture on the copy and ask
        for the continuations from the landing square. Each continuation gives
        one chain; no continuation gives the single capture. */
    method JumpDirection(k: int, tBoard: array<PieceColor>, r: int, c: int) returns (chains: seq<Move>)
      requires whoseMove != Empty && ValidSquare(k) && tBoard.Length == 25 && tBoard[k] == whoseMove
      requires -1 <= r <= 1 && -1 <= c <= 1
      ensures chains == ChainsDir(tBoard[..], whoseMove, k, r, c)
      decreases Count(tBoard[..], Opposite(whoseMove)), 1
    {
      chains := [];
      var who := whoseMove;
      var diagonals := k % 2 == 0;
      hide Row, Col;
      Offsets(k, r, c);
      if ValidCoords(Col(k) + c, Row(k) + r) && tBoard[k + r * 5 + c] == Opposite(who)
         && (diagonals || r == 0 || c == 0)
         && ValidCoords(Col(k) + 2 * c, Row(k) + 2 * r) && tBoard[k + r * 10 + c * 2] == Empty
      {
        chains := Capture(k, tBoard, r, c);
      }
    }

    /** The capture from K in direction (R, C) and its continuations, found on
        a copy of TBOARD with the capture played. */
    method Capture(k: int, tBoard: array<PieceColor>, r: int, c: int) returns (chains: seq<Move>)
      requires whoseMove != Empty && ValidSquare(k) && tBoard.Length == 25 && tBoard[k] == whoseMove
      requires -1 <= r <= 1 && -1 <= c <= 1 && CanJump(tBoard[..], whoseMove, k, r, c)
      ensures chains == ChainsDir(tBoard[..], whoseMove, k, r, c)
      decreases Count(tBoard[..], Opposite(whoseMove)), 0
    {
      hide Row, Col, Count, JumpChains, CanJump;
      ghost var tb := tBoard[..];
      var who := whoseMove;
      var to := k + r * 10 + c * 2;
      CanJumpGeometry(tb, who, k, r, c);
      CountAfterJump(tb, who, k, r, c);
      var nBoard := CopyGrid(tBoard);
      nBoard[k] := Empty;
      nBoard[k + r * 5 + c] := Empty;
      nBoard[to] := who;
      assert nBoard[..] == AfterJump(tb, who, k, to);
      var tails := JumpHelper(to, nBoard);
      if tails != [] {
        chains := Prefix(k, to, tails);
      } else {
        chains := [Move(k, to, None)];
      }
      assert tBoard[..] == tb;
    }

    /** The capture FROM-TO put in front of each of TAILS, in order. */
    static method Prefix(from: int, to: int, tails: seq<Move>) returns (chains: seq<Move>)
      ensures chains == Prefixed(from, to, tails)
    {
      chains := [];
      for t := 0 to |tails|
        invariant chains == Prefixed(from, to, tails[..t])
      {
        assert tails[..t + 1][..t] == tails[..t];
        chains := chains + [Move(from, to, Some(tails[t]))];
      }
      assert tails[..|tails|] == tails;
    }

    /** A fresh copy of a grid array, filled square by square. */
    static method CopyGrid(src: array<PieceColor>) returns (dst: array<PieceColor>)
      requires src.Length == 25
      ensures fresh(dst) && dst[..] == src[..]
    {
      dst := new PieceColor[25](i => Empty);
      for i := 0 to 25
        invariant forall j :: 0 <= j < i ==> dst[j] == src[j]
      {
        dst[i] := src[i];
      }
    }

    /** checkJump: true for no move; for a move, true exactly when partial
        chains are allowed, whatever the chain. */
    method CheckJump(mov: Option<Move>, allowPartial: bool) returns (r: bool)
      ensures r == (mov == None || allowPartial)
    {
      var m := mov;
      if m == None {
        return true;
      }
      if allowPartial {
        while m != None
          invariant m != None
          decreases m
        {
          m := m.value.jumpTail;
          if m == None {
            return true;
          }
        }
      }
      return false;
    }

    /** jumpPossible(k): the piece on K belongs to the side to move and has a
        capture in one of the eight directions (diagonals only from an even square). */
    method JumpPossibleAt(k: int) returns (b: bool)
      requires Valid() && ValidSquare(k)
      ensures b == MoveGen.JumpPossibleAt(grid[..], whoseMove, k)
    {
      if grid[k] == whoseMove {
        var diagonals := k % 2 == 0;
        for r := -1 to 2
          invariant forall dr, dc :: -1 <= dr < r && -1 <= dc <= 1 ==> !CanJump(grid[..], whoseMove, k, dr, dc)
        {
          for c := -1 to 2
            invariant forall dr, dc :: (-1 <= dr < r && -1 <= dc <= 1) || (dr == r && -1 <= dc < c) ==>
              !CanJump(grid[..], whoseMove, k, dr, dc)
          {
            var jump := JumpTest(k, r, c, diagonals);
            if jump {
              return true;
            }
          }
        }
      }
      return false;
    }

    /** The capture test of jumpPossible(k) for direction (R, C). */
    method JumpTest(k: int, r: int, c: int, diagonals: bool) returns (b: bool)
      requires Valid() && ValidSquare(k) && -1 <= r <= 1 && -1 <= c <= 1 && diagonals == (k % 2 == 0)
      ensures b == CanJump(grid[..], whoseMove, k, r, c)
    {
      hide Row, Col;
      Offsets(k, r, c);
      b := false;
      if ValidCoords(Col(k) + c, Row(k) + r) && grid[k + r * 5 + c] == Opposite(whoseMove) {
        if diagonals || r == 0 || c == 0 {
          if ValidCoords(Col(k) + 2 * c, Row(k) + 2 * r) && grid[k + r * 10 + c * 2] == Empty {
            b := true;
          }
        }
      }
    }

    /** jumpPossible(): some square has a capture. */
    method JumpPossible() returns (b: bool)
      requires Valid()
      ensures b == MoveGen.JumpPossible(grid[..], whoseMove)
    {
      for k := 0 to MAX_INDEX + 1
        invariant forall j :: 0 <= j < k ==> !MoveGen.JumpPossibleAt(grid[..], whoseMove, j)
      {
        var p := JumpPossibleAt(k);
        if p {
          return true;
        }
      }
      return false;
    }

    /** makeMove: nothing unless MOV is legal; otherwise push the memory and the
        move, move the piece and remove the captured ones step by step along
        the chain, pass the turn and mark the game over if the new side cannot
        move. */
    method MakeMove(mov: Move)
      requires Valid()
      modifies this, grid, horizontalMove
      ensures Valid() && Model() == MakeMoveState(old(Model()), mov)
    {
      var legal := LegalMove(mov);
      if legal {
        Play(mov);
      } else {
        return;
      }
      var moves := GetMoves();
      if moves == [] {
        gameOver := true;
      }
    }

    /** The body of makeMove for a legal MOV, before the game-over test. */
    method Play(mov: Move)
      requires Valid() && mov in Legal(Model())
      modifies this, grid, horizontalMove
      ensures Valid() && Model() == Played(old(Model()), mov)
    {
      hide Legal, LegalMoves, AfterJump, IsChain, SimpleStep;
      ghost var s := Model();
      LegalMoveKind(s, mov);
      var permit := IsJump(mov);
      var thisColor := grid[mov.from];
      var hm := horizontalMove[..];
      stack1 := stack1 + [hm];
      FirstStep(mov, permit, thisColor);
      stack := stack + [mov];
      horizontalMove[mov.from] := 0;
      if mov.jumpTail != None {
        PlayTail(mov.jumpTail, thisColor);
      }
      whoseMove := Opposite(whoseMove);
    }

    /** The first step of makeMove: a simple step records its column delta (0
        when it moves forward) on the destination's memory and moves the piece
        of COLOR; a capture also empties the jumped square. */
    method FirstStep(mov: Move, permit: bool, color: PieceColor)
      requires grid.Length == 25 && horizontalMove.Length == 25 && InBounds(mov) && permit == IsJump(mov)
      modifies grid, horizontalMove
      ensures grid[..] == if permit then AfterJump(old(grid[..]), color, mov.from, mov.to)
                          else old(grid[..])[mov.from := Empty][mov.to := color]
      ensures horizontalMove[..] == if permit then old(horizontalMove[..])
        else old(horizontalMove[..])[mov.to := if Row(mov.from) == Row(mov.to) then Col(mov.to) - Col(mov.from) else 0]
    {
      if !permit {
        if Row(mov.from) == Row(mov.to) {
          horizontalMove[mov.to] := Col(mov.to) - Col(mov.from);
        } else {
          horizontalMove[mov.to] := 0;
        }
        grid[mov.from] := Empty;
        grid[mov.to] := color;
      } else {
        grid[mov.from] := Empty;
        grid[JumpedIndex(mov)] := Empty;
        grid[mov.to] := color;
      }
    }

    /** The capture loop of makeMove: play every further capture step of the
        chain T with the pieces of COLOR. */
    method PlayTail(t: Option<Move>, color: PieceColor)
      requires grid.Length == 25 && (t.Some? ==> InBounds(t.value))
      modifies grid
      ensures grid[..] == ApplyTail(old(grid[..]), t, color)
    {
      var mov := t;
      while mov != None
        invariant mov.Some? ==> InBounds(mov.value)
        invariant ApplyTail(grid[..], mov, color) == ApplyTail(old(grid[..]), t, color)
        decreases mov
      {
        var m := mov.value;
        grid[m.from] := Empty;
        grid[JumpedIndex(m)] := Empty;
        grid[m.to] := color;
        mov := m.jumpTail;
      }
    }

    /** undo: nothing when no move was made; otherwise pop the last move, put
        the mover back on its start square and the captured pieces back,
        empty the landing squares, pass the turn back and restore the memory
        snapshot when there is one. The game-over flag is left alone. */
    method Undo()
      requires Valid()
      modifies this, grid, horizontalMove
      ensures Valid() && Model() == UndoState(old(Model()))
    {
      if stack == [] {
        return;
      }
      ghost var s := Model();
      var mov := stack[|stack| - 1];
      assert mov in stack;
      stack := stack[..|stack| - 1];
      var thisColor := Opposite(whoseMove);
      UndoFirstStep(mov, thisColor);
      if mov.jumpTail != None {
        UndoCaptures(mov.jumpTail, thisColor);
      }
      whoseMove := Opposite(whoseMove);
      if stack1 != [] {
        var hm := stack1[|stack1| - 1];
        assert hm in stack1;
        stack1 := stack1[..|stack1| - 1];
        RestoreMemory(hm);
      }
    }

    /** The first step of undo: the piece of COLOR goes back to the start
        square and the landing square is emptied; a capture also puts an
        opposing piece back on the jumped square. */
    method UndoFirstStep(mov: Move, color: PieceColor)
      requires grid.Length == 25 && InBounds(mov)
      modifies grid
      ensures grid[..] == if IsJump(mov) then old(grid[..])[mov.from := color][JumpedIndex(mov) := Opposite(color)][mov.to := Empty]
                          else old(grid[..])[mov.from := color][mov.to := Empty]
    {
      var allow := IsJump(mov);
      if !allow {
        grid[mov.from] := color;
        grid[mov.to] := Empty;
      } else {
        grid[mov.from] := color;
        grid[JumpedIndex(mov)] := Opposite(color);
        grid[mov.to] := Empty;
      }
    }

    /** The capture loop of undo: for every further step of the chain T put a
        piece of the side opposite to COLOR back on the jumped square and empty
        the landing square. */
    method UndoCaptures(t: Option<Move>, color: PieceColor)
      requires grid.Length == 25 && (t.Some? ==> InBounds(t.value))
      modifies grid
      ensures grid[..] == UndoTail(old(grid[..]), t, color)
    {
      var mov := t;
      while mov != None
        invariant mov.Some? ==> InBounds(mov.value)
        invariant UndoTail(grid[..], mov, color) == UndoTail(old(grid[..]), t, color)
        decreases mov
      {
        var m := mov.value;
        grid[JumpedIndex(m)] := Opposite(color);
        grid[m.to] := Empty;
        mov := m.jumpTail;
      }
    }

    /** The horizontal memory becomes the snapshot HM. */
    method RestoreMemory(hm: seq<int>)
      requires horizontalMove.Length == 25 && |hm| == 25
      modifies horizontalMove
      ensures horizontalMove[..] == hm
    {
      for i := 0 to 25
        invariant forall j :: 0 <= j < i ==> horizontalMove[j] == hm[j]
      {
        horizontalMove[i] := hm[i];
      }
    }

    /** equals: the printed grids and the sides to move agree, which is the
        same as the grids and the sides to move agreeing. */
    method Equals(b: Board) returns (r: bool)
      requires Valid() && b.Valid()
      ensures r == Equal(Model(), b.Model())
      ensures r <==> grid[..] == b.grid[..] && whoseMove == b.whoseMove
    {
      var mine := ToString(false);
      var theirs := b.ToString(false);
      r := theirs == mine && whoseMove == b.whoseMove;
      EqualIff(Model(), b.Model());
    }

    /** toString(legend): rows from the top, each as two spaces and the five
        squares separated by spaces, separated by newlines, then the column
        letters when LEGEND. */
    method ToString(legend: bool) returns (out: string)
      requires Valid()
      ensures out == Render(grid[..], legend)
    {
      ghost var g := grid[..];
      out := "";
      var row := 20;
      ghost var r := 4;
      while row >= 0
        invariant -1 <= r <= 4 && row == r * 5
        invariant r == 4 ==> out == ""
        invariant 0 <= r < 4 ==> out == Rows(g, r + 1) + "\n"
        invariant r == -1 ==> out == Rows(g, 0)
        decreases row
      {
        ghost var above := out;
        out := FormatRow(out, row, r);
        assert r == 4 ==> above + RowText(g, r) == RowText(g, r);
        assert out == Rows(g, r);
        if row != 0 {
          out := out + "\n";
        }
        row := row - 5;
        r := r - 1;
      }
      if legend {
        out := out + "\na b c d e ";
      }
    }

    /** One row of toString: two spaces, then the five squares of the row
        starting at ROW (row R from the bottom), separated by spaces. */
    method FormatRow(above: string, row: int, ghost r: int) returns (out: string)
      requires Valid() && 0 <= r < 5 && row == r * 5
      ensures out == above + RowText(grid[..], r)
    {
      ghost var g := grid[..];
      out := above + "  ";
      for col := 0 to 5
        invariant out == above + "  " + Cells(g, row, col)
      {
        var k := row + col;
        ghost var sym := [Symbol(grid[k])];
        AppendAssoc(above + "  ", Cells(g, row, col), sym);
        out := out + [Symbol(grid[k])];
        if col != 4 {
          AppendAssoc(above + "  ", Cells(g, row, col) + sym, " ");
          out := out + " ";
        }
      }
      AppendAssoc(above, "  ", Cells(g, row, 5));
    }

    /** piecenumber: the number of squares holding COLOR. */
    method PieceNumber(color: PieceColor) returns (count: nat)
      requires Valid()
      ensures count == Count(grid[..], color)
    {
      count := 0;
      for i := 0 to MAX_INDEX + 1
        invariant count == Count(grid[..i], color)
      {
        assert grid[..i + 1][..i] == grid[..i];
        if color == grid[i] {
          count := count + 1;
        }
      }
      assert grid[..25] == grid[..];
    }
  }
  /** The test of the step generator at offset (I, J), written with the
      generator's own local variables, is the specification's step test. */
  lemma StepTest(g: seq<PieceColor>, hm: seq<int>, who: PieceColor, k: int, i: int, j: int,
                 colorSign: int, dr: int, lastRow: int, diagonals: bool)
    requires IsGrid(g, hm) && ValidSquare(k) && who != Empty && 0 <= j < 2
    requires diagonals == (k % 2 == 0)
    requires colorSign == ColorSign(who) && dr == j * colorSign && lastRow == LastRow(who)
    ensures StepsAt(g, hm, who, k, i, j)
            == if ValidCoords(Col(k) + i, Row(k) + dr) && g[Index(Col(k) + i, Row(k) + dr)] == Empty
                  && (hm[k] == 0 || hm[k] != -i || j != 0) && Row(k) != lastRow && (diagonals || i == 0 || j == 0)
               then [Move(k, Index(Col(k) + i, Row(k) + dr), None)] else []
  {
    assert dr == Forward(j, who);
  }

  lemma AppendAssoc<T>(a: seq<T>, b: seq<T>, c: seq<T>)
    ensures (a + b) + c == a + (b + c)
  {
  }
}
