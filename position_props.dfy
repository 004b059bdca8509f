/**
 * What making and undoing a move do to a position, proved from the shape of
 * the legal moves.
 */
module PositionProps {
  import opened PieceColors
  import opened Moves
  import opened MoveGen
  import opened MoveGenProps
  import opened Positions

  predicate SameParity(a: int, b: int)
  {
    Row(a) % 2 == Row(b) % 2 && Col(a) % 2 == Col(b) % 2
  }

  /** A capture step keeps the parity of row and column; the jumped square differs in one. */
  lemma StepParity(k: int, to: int)
    requires ValidSquare(k) && ValidSquare(to)
    requires Row(to) - Row(k) in {-2, 0, 2} && Col(to) - Col(k) in {-2, 0, 2}
    requires Row(to) != Row(k) || Col(to) != Col(k)
    ensures SameParity(to, k) && !SameParity((k + to) / 2, k)
  {
    hide Row, Col;
    DoubleOffsets(k, to);
    var dr, dc := (Row(to) - Row(k)) / 2, (Col(to) - Col(k)) / 2;
    MidParity(k, dr, dc);
    ModTwo(Row(k), dr);
    ModTwo(Col(k), dc);
  }

  /** The square DR rows and DC columns from K has the parity of K exactly when
      neither offset is odd, and twice the offsets keep the parity. */
  lemma MidParity(k: int, dr: int, dc: int)
    requires ValidSquare(k) && dr in {-1, 0, 1} && dc in {-1, 0, 1}
    requires ValidCoords(Col(k) + dc, Row(k) + dr) && ValidCoords(Col(k) + 2 * dc, Row(k) + 2 * dr)
    ensures Row(k + dr * 5 + dc) == Row(k) + dr && Col(k + dr * 5 + dc) == Col(k) + dc
    ensures Row(k + dr * 10 + dc * 2) == Row(k) + 2 * dr && Col(k + dr * 10 + dc * 2) == Col(k) + 2 * dc
  {
    Shift(k, dc, dr);
    Shift(k, 2 * dc, 2 * dr);
  }

  lemma ModTwo(x: int, d: int)
    requires d in {-1, 0, 1}
    ensures (x + 2 * d) % 2 == x % 2
    ensures d != 0 ==> (x + d) % 2 != x % 2
  {
  }

  /** A chain lands only on squares of its start square's parity and jumps only
      squares of another parity. */
  lemma {:induction false} ChainParity(g: seq<PieceColor>, who: PieceColor, m: Move)
    requires |g| == 25 && who != Empty && IsChain(g, who, m)
    ensures forall x :: x in Landings(m) ==> SameParity(x, m.from)
    ensures forall x :: x in Jumped(m) ==> !SameParity(x, m.from)
    decreases m
  {
    StepParity(m.from, m.to);
    if m.jumpTail.Some? {
      ChainParity(AfterJump(g, who, m.from, m.to), who, m.jumpTail.value);
    }
  }

  /** What a chain needs of the grid it starts on: the mover on its start square,
      opposing pieces on every jumped square, and empty landing squares, except a
      landing on the start square, which the mover has left. */
  lemma {:induction false} ChainOnGrid(g: seq<PieceColor>, who: PieceColor, m: Move)
    requires |g| == 25 && who != Empty && IsChain(g, who, m)
    ensures g[m.from] == who && m.from !in Jumped(m)
    ensures forall x :: x in Landings(m) ==> ValidSquare(x) && (x == m.from || g[x] == Empty)
    ensures forall x :: x in Jumped(m) ==> ValidSquare(x) && g[x] == Opposite(who)
    ensures Landings(m) !! Jumped(m)
    decreases m
  {
    hide IsChain, Row, Col, SameParity, JumpStep;
    ChainParity(g, who, m);
    ChainHead(g, who, m);
    var mid := JumpedIndex(m);
    if m.jumpTail.Some? {
      var t := m.jumpTail.value;
      ChainOnGrid(AfterJump(g, who, m.from, m.to), who, t);
      assert Landings(m) == {m.to} + Landings(t) && Jumped(m) == {mid} + Jumped(t);
      forall x | x in Landings(t) ensures x != mid {
        assert x in Landings(m);
      }
      assert m.from != mid && m.from != m.to && mid != m.to;
      assert ValidSquare(mid);
      assert mid !in Landings(t);
      assert AfterJump(g, who, m.from, m.to) == g[m.from := Empty][mid := Empty][m.to := who];
      ChainOnGridStep(g, AfterJump(g, who, m.from, m.to), who, m.from, mid, m.to, Landings(t), Jumped(t));
    }
  }

  /** The facts of ChainOnGrid for a chain, from those of its tail (landing
      squares L, jumped squares J) on the grid G1 after its first capture. */
  lemma ChainOnGridStep(g: seq<PieceColor>, g1: seq<PieceColor>, who: PieceColor,
                        from: int, mid: int, to: int, L: set<int>, J: set<int>)
    requires |g| == 25 && who != Empty && ValidSquare(from) && ValidSquare(mid) && ValidSquare(to)
    requires from != mid && from != to && mid != to
    requires g[from] == who && g[mid] == Opposite(who) && g[to] == Empty
    requires g1 == g[from := Empty][mid := Empty][to := who]
    requires forall x :: x in L ==> ValidSquare(x) && (x == to || g1[x] == Empty)
    requires forall x :: x in J ==> ValidSquare(x) && g1[x] == Opposite(who)
    requires L !! J && mid !in L
    ensures from !in {mid} + J
    ensures forall x :: x in {to} + L ==> ValidSquare(x) && (x == from || g[x] == Empty)
    ensures forall x :: x in {mid} + J ==> ValidSquare(x) && g[x] == Opposite(who)
    ensures ({to} + L) !! ({mid} + J)
  {
    forall x | x in J ensures g[x] == Opposite(who) && x != from && x != to && x != mid {
      assert g1[x] == Opposite(who);
    }
  }

  /** The grid after the capture steps of chain M: the mover on the final square,
      every other square the chain touched empty, the rest as before. */
  lemma {:induction false} ApplyChainAt(g: seq<PieceColor>, who: PieceColor, m: Move, x: int)
    requires |g| == 25 && who != Empty && IsChain(g, who, m) && 0 <= x < 25
    ensures InBounds(m)
    ensures ApplyTail(g, Some(m), who)[x] ==
      if x == FinalTo(m) then who
      else if x in Jumped(m) || x == m.from || x in Landings(m) then Empty
      else g[x]
    decreases m
  {
    hide IsChain, Row, Col, JumpStep;
    ChainInBounds(g, who, m);
    ChainHead(g, who, m);
    if m.jumpTail.Some? {
      ApplyChainAt(AfterJump(g, who, m.from, m.to), who, m.jumpTail.value, x);
    }
  }

  /** The undo steps of a tail whose landing and jumped squares are disjoint:
      landing squares emptied, jumped squares given back to the opponent. */
  lemma {:induction false} UndoTailAt(h: seq<PieceColor>, t: Option<Move>, color: PieceColor, x: int)
    requires |h| == 25 && t.Some? && InBounds(t.value) && 0 <= x < 25
    requires Landings(t.value) !! Jumped(t.value)
    ensures UndoTail(h, t, color)[x] ==
      if x in Landings(t.value) then Empty
      else if x in Jumped(t.value) then Opposite(color)
      else h[x]
    decreases t
  {
    var m := t.value;
    if m.jumpTail.Some? {
      UndoTailAt(h[JumpedIndex(m) := Opposite(color)][m.to := Empty], m.jumpTail, color, x);
    }
  }

  /** Undoing a capture chain that never lands back on its start square gives
      back the grid it was made on. */
  lemma ChainRoundTrip(g: seq<PieceColor>, who: PieceColor, m: Move)
    requires |g| == 25 && who != Empty && IsChain(g, who, m) && m.from !in Landings(m)
    ensures InBounds(m)
    ensures var h := ApplyTail(g, Some(m), who);
      UndoTail(h[m.from := who][JumpedIndex(m) := Opposite(who)][m.to := Empty], m.jumpTail, who) == g
  {
    ChainInBounds(g, who, m);
    ChainOnGrid(g, who, m);
    hide IsChain, ApplyTail, UndoTail, JumpStep;
    var h := ApplyTail(g, Some(m), who);
    var h0 := h[m.from := who][JumpedIndex(m) := Opposite(who)][m.to := Empty];
    var r := UndoTail(h0, m.jumpTail, who);
    forall x | 0 <= x < 25 ensures r[x] == g[x] {
      ApplyChainAt(g, who, m, x);
      if m.jumpTail.Some? {
        UndoTailAt(h0, m.jumpTail, who, x);
      }
    }
  }

  /** makeMove followed by undo restores the grid, the side to move, the
      horizontal memory and both stacks, for every legal move whose capture chain
      does not land back on its start square; the game-over flag stays as
      makeMove left it. */
  lemma MakeUndoRoundTrip(s: State, m: Move)
    requires WellFormed(s) && m in Legal(s) && m.from !in Landings(m)
    ensures UndoState(MakeMoveState(s, m)) == s.(gameOver := MakeMoveState(s, m).gameOver)
  {
    var g, who := s.grid, s.whoseMove;
    LegalMoveKind(s, m);
    MakeMoveIsPlayed(s, m);
    OppositeTwice(who);
    hide Legal, LegalMoves, MakeMoveState, IsChain, SimpleStep, JumpStep;
    var r := MakeMoveState(s, m);
    var u := UndoState(r);
    assert r.stack[..|r.stack| - 1] == s.stack;
    assert r.stack1[..|r.stack1| - 1] == s.stack1;
    if IsJump(m) {
      ChainRoundTrip(g, who, m);
    } else {
      assert u.grid == g[m.from := Empty][m.to := who][m.from := who][m.to := Empty];
      assert u.grid == g;
    }
  }

  /** makeMove on a legal move is the played position, with the game-over flag
      set or not. */
  lemma MakeMoveIsPlayed(s: State, m: Move)
    requires WellFormed(s) && m in Legal(s)
    ensures MakeMoveState(s, m) == Played(s, m).(gameOver := MakeMoveState(s, m).gameOver)
  {
    hide Played;
  }

  /** A legal move is a capture chain when it captures and a simple step
      otherwise. */
  lemma LegalMoveKind(s: State, m: Move)
    requires WellFormed(s) && m in Legal(s)
    ensures !s.gameOver && InBounds(m) && s.grid[m.from] == s.whoseMove
    ensures IsJump(m) ==> IsChain(s.grid, s.whoseMove, m)
    ensures !IsJump(m) ==>
      SimpleStep(s.grid, s.horizontalMove, s.whoseMove, m) && m.from != m.to && s.grid[m.to] == Empty
  {
    LegalMovesShape(s.grid, s.horizontalMove, s.whoseMove, s.gameOver);
    if !JumpPossible(s.grid, s.whoseMove) {
      assert SimpleStep(s.grid, s.horizontalMove, s.whoseMove, m);
    }
  }

  /** A legal makeMove pushes the move and the old memory, passes the turn,
      leaves the mover on the final square with its start square and every
      jumped square emptied and nothing else changed, clears the memory of the
      start square, records the column delta of a simple step on its
      destination, and sets game-over exactly when the new side has no move. */
  lemma MakeMoveEffects(s: State, m: Move)
    requires WellFormed(s) && m in Legal(s)
    ensures !s.gameOver && InBounds(m) && s.grid[m.from] == s.whoseMove
    ensures var r := MakeMoveState(s, m);
      r.stack == s.stack + [m] && r.stack1 == s.stack1 + [s.horizontalMove]
      && r.whoseMove == Opposite(s.whoseMove)
      && (IsJump(m) ==> forall x :: 0 <= x < 25 ==>
            r.grid[x] == (if x == FinalTo(m) then s.whoseMove
                          else if x == m.from || x in Jumped(m) then Empty
                          else s.grid[x]))
      && (!IsJump(m) ==> m.to != m.from && r.grid == s.grid[m.from := Empty][m.to := s.whoseMove])
      && r.horizontalMove[m.from] == 0
      && (!IsJump(m) ==> r.horizontalMove[m.to] == if Row(m.to) == Row(m.from) then Col(m.to) - Col(m.from) else 0)
      && (forall x :: 0 <= x < 25 && x != m.from && (IsJump(m) || x != m.to) ==>
            r.horizontalMove[x] == s.horizontalMove[x])
      && (r.gameOver <==> LegalMoves(r.grid, r.horizontalMove, r.whoseMove, false) == [])
  {
    var g, who := s.grid, s.whoseMove;
    LegalMovesShape(g, s.horizontalMove, who, s.gameOver);
    var r := MakeMoveState(s, m);
    if JumpPossible(g, who) {
      ChainOnGrid(g, who, m);
      forall x | 0 <= x < 25 ensures r.grid[x] ==
        if x == FinalTo(m) then who else if x == m.from || x in Jumped(m) then Empty else g[x]
      {
        ApplyChainAt(g, who, m, x);
      }
    } else {
      assert SimpleStep(g, s.horizontalMove, who, m);
    }
  }

  /** undo never clears the game-over flag: once a move ends the game, undoing
      it leaves a board with no legal move, on which every later makeMove does
      nothing. */
  lemma GameOverPersists(s: State, m: Move, next: Move)
    requires WellFormed(s) && m in Legal(s) && MakeMoveState(s, m).gameOver
    ensures var u := UndoState(MakeMoveState(s, m));
      u.gameOver && Legal(u) == [] && MakeMoveState(u, next) == u
  {
    MakeMoveEffects(s, m);
  }

  /** A capture chain of White that ends on its start square: from square 0
      over 1, 7, 11 and 5, through 2, 12 and 10. */
  const CYCLE: Move := Move(0, 2, Some(Move(2, 12, Some(Move(12, 10, Some(Move(10, 0, None)))))))

  /** G holds White exactly on the squares W and Black exactly on B. */
  predicate Holds(g: seq<PieceColor>, w: set<int>, b: set<int>)
  {
    |g| == 25 && forall k :: 0 <= k < 25 ==> g[k] == (if k in w then White else if k in b then Black else Empty)
  }

  lemma CycleJump(g: seq<PieceColor>, from: int, to: int, b: set<int>)
    requires Holds(g, {from}, b) && ValidSquare(from) && ValidSquare(to)
    requires from !in b && to !in b && to != from && (from + to) / 2 in b
    ensures Holds(AfterJump(g, White, from, to), {to}, b - {(from + to) / 2})
  {
  }

  lemma CycleLast(g: seq<PieceColor>)
    requires Holds(g, {10}, {5})
    ensures IsChain(g, White, Move(10, 0, None))
  {
    CycleJump(g, 10, 0, {5});
    var n := AfterJump(g, White, 10, 0);
    assert forall k :: 0 <= k < 25 ==> n[k] != Black;
  }

  lemma CycleThird(g: seq<PieceColor>)
    requires Holds(g, {12}, {5, 11})
    ensures IsChain(g, White, Move(12, 10, Some(Move(10, 0, None))))
  {
    CycleJump(g, 12, 10, {5, 11});
    assert {5, 11} - {11} == {5};
    CycleLast(AfterJump(g, White, 12, 10));
  }

  lemma CycleSecond(g: seq<PieceColor>)
    requires Holds(g, {2}, {5, 7, 11})
    ensures IsChain(g, White, Move(2, 12, Some(Move(12, 10, Some(Move(10, 0, None))))))
  {
    CycleJump(g, 2, 12, {5, 7, 11});
    assert {5, 7, 11} - {7} == {5, 11};
    CycleThird(AfterJump(g, White, 2, 12));
  }

  lemma CycleIsChain(g: seq<PieceColor>)
    requires Holds(g, {0}, {1, 5, 7, 11})
    ensures IsChain(g, White, CYCLE)
  {
    CycleJump(g, 0, 2, {1, 5, 7, 11});
    assert {1, 5, 7, 11} - {1} == {5, 7, 11};
    CycleSecond(AfterJump(g, White, 0, 2));
  }

  lemma CycleIsLegal(s: State)
    requires WellFormed(s) && Holds(s.grid, {0}, {1, 5, 7, 11}) && s.whoseMove == White && !s.gameOver
    ensures CYCLE in Legal(s)
  {
    CycleIsChain(s.grid);
    assert CanJump(s.grid, White, 0, 0, 1);
    assert JumpPossibleAt(s.grid, White, 0);
    LegalMovesShape(s.grid, s.horizontalMove, White, false);
  }

  lemma UndoJumpGrid(r: State, m: Move, color: PieceColor)
    requires WellFormed(r) && r.stack != [] && r.stack[|r.stack| - 1] == m
    requires IsJump(m) && color == Opposite(r.whoseMove)
    ensures InBounds(m)
    ensures UndoState(r).grid ==
      UndoTail(r.grid[m.from := color][JumpedIndex(m) := Opposite(color)][m.to := Empty], m.jumpTail, color)
  {
    assert m in r.stack;
  }

  /** undo after a capture chain that ends on its start square does not give
      the position back: it puts the piece on the start square first and then
      empties the last landing square, which is the same square. */
  lemma CycleUndoLosesPiece(s: State)
    requires WellFormed(s) && Holds(s.grid, {0}, {1, 5, 7, 11}) && s.whoseMove == White && !s.gameOver
    ensures CYCLE in Legal(s) && CYCLE.from in Landings(CYCLE) && s.grid[0] == White
    ensures UndoState(MakeMoveState(s, CYCLE)).grid[0] == Empty
  {
    CycleIsLegal(s);
    MakeMovePushes(s, CYCLE);
    CycleSquares();
    var r := MakeMoveState(s, CYCLE);
    assert r.stack[|r.stack| - 1] == CYCLE;
    UndoJumpGrid(r, CYCLE, White);
    hide MakeMoveState, Legal, IsChain, Holds, JumpStep, UndoTail, Landings, Jumped, InBounds, UndoState;
    var h := r.grid[CYCLE.from := White][JumpedIndex(CYCLE) := Opposite(White)][CYCLE.to := Empty];
    UndoTailAt(h, CYCLE.jumpTail, White, 0);
  }

  /** The squares the cycle lands on and jumps over after its first capture. */
  lemma CycleSquares()
    ensures CYCLE.jumpTail.Some? && InBounds(CYCLE) && CYCLE.from in Landings(CYCLE) && IsJump(CYCLE)
    ensures var t := CYCLE.jumpTail.value;
      InBounds(t) && Landings(t) !! Jumped(t) && 0 in Landings(t)
  {
  }

  /** A legal makeMove pushes the move and the memory snapshot and passes the turn. */
  lemma MakeMovePushes(s: State, m: Move)
    requires WellFormed(s) && m in Legal(s)
    ensures var r := MakeMoveState(s, m);
      r.stack == s.stack + [m] && r.stack1 == s.stack1 + [s.horizontalMove]
      && r.whoseMove == Opposite(s.whoseMove)
  {
    hide ApplyTail, LegalMoves;
  }

  // ---------------------------------------------------------------------------
  // Setup, counting and equality

  /** setPieces refuses a missing or EMPTY side with BadPlayerColor, and then
      a layout that is not 25 of b, w and - with BadBoardDescription; on
      success the grid is the layout, the memory is zero and its stack empty,
      the move stack is kept, NEXT is to move, and the game is over exactly
      when NEXT has no move. */
  lemma SetPiecesEffects(s: State, str: string, next: Option<PieceColor>)
    ensures var t := StripWhitespace(str);
      match SetPieces(s, str, next)
      case Failed(e) =>
        (e == BadPlayerColor <==> next == None || next == Some(Empty))
        && (e == BadBoardDescription ==> !IsLayout(t))
      case Done(r) =>
        next.Some? && next.value != Empty && IsLayout(t)
        && r.grid == ParseLayout(t) && r.horizontalMove == Zeros() && r.stack1 == [] && r.stack == s.stack
        && r.whoseMove == next.value && (r.gameOver <==> LegalMoves(r.grid, r.horizontalMove, r.whoseMove, false) == [])
  {
  }

  /** The layout pattern takes lower-case letters only: an upper-case B or W
      is refused, although the parsing switch would accept it. */
  lemma UpperCaseRefused(s: State, str: string, next: PieceColor, i: int)
    requires next != Empty && 0 <= i < |StripWhitespace(str)| && StripWhitespace(str)[i] in {'B', 'W'}
    ensures SetPieces(s, str, Some(next)) == Failed(BadBoardDescription)
  {
  }

  /** makeMove of a move that is not legal and undo with no move on the stack
      change nothing. */
  lemma NoOps(s: State, m: Move)
    requires WellFormed(s)
    ensures m !in Legal(s) ==> MakeMoveState(s, m) == s
    ensures s.stack == [] ==> UndoState(s) == s
  {
  }

  /** clear gives the opening: twelve pieces a side, the centre square empty,
      no horizontal memory, White to move and the game not over. */
  lemma ClearFacts(stack: seq<Move>)
    ensures var r := ClearState(stack);
      |r.grid| == 25 && Count(r.grid, White) == 12 && Count(r.grid, Black) == 12
      && r.grid[12] == Empty && r.whoseMove == White && !r.gameOver
      && r.horizontalMove == Zeros() && r.stack1 == [] && r.stack == stack
  {
    OpeningIsLayout();
    var g := ParseLayout(OPENING);
    OpeningCounts(g);
    assert SimpleStep(g, Zeros(), White, Move(7, 12, None));
    LegalMovesShape(g, Zeros(), White, false);
  }

  lemma OpeningCounts(g: seq<PieceColor>)
    requires IsLayout(OPENING) && g == ParseLayout(OPENING)
    ensures Count(g, White) == 12 && Count(g, Black) == 12 && g[12] == Empty
  {
    var a, b, c, d, e := g[..10], g[10..12], g[12..13], g[13..15], g[15..];
    assert g == a + b + c + d + e;
    CountUniform(a, White);
    CountUniform(b, Black);
    CountUniform(c, Empty);
    CountUniform(d, White);
    CountUniform(e, Black);
    CountAppend(a, b);
    CountAppend(a + b, c);
    CountAppend(a + b + c, d);
    CountAppend(a + b + c + d, e);
  }

  lemma {:induction false} CountAppend(a: seq<PieceColor>, b: seq<PieceColor>)
    ensures forall c :: Count(a + b, c) == Count(a, c) + Count(b, c)
    decreases |b|
  {
    if b != [] {
      var b0 := b[..|b| - 1];
      assert (a + b)[..|a + b| - 1] == a + b0;
      CountAppend(a, b0);
    } else {
      assert a + b == a;
    }
  }

  lemma {:induction false} CountUniform(g: seq<PieceColor>, c: PieceColor)
    requires forall k :: 0 <= k < |g| ==> g[k] == c
    ensures forall d :: Count(g, d) == if d == c then |g| else 0
  {
    if g != [] {
      CountUniform(g[..|g| - 1], c);
    }
  }

  /** Every square holds exactly one of the three colours. */
  lemma {:induction false} CountTotal(g: seq<PieceColor>)
    ensures Count(g, White) + Count(g, Black) + Count(g, Empty) == |g|
  {
    if g != [] {
      CountTotal(g[..|g| - 1]);
    }
  }

  lemma {:induction false} CellsInjective(g: seq<PieceColor>, h: seq<PieceColor>, k: int, n: int)
    requires |g| == 25 && |h| == 25 && 0 <= k && k + 5 <= 25 && 0 <= n <= 5
    requires Cells(g, k, n) == Cells(h, k, n)
    ensures forall x :: k <= x < k + n ==> g[x] == h[x]
    decreases n
  {
    if n > 0 {
      SymbolInjective(g[k + n - 1], h[k + n - 1]);
      var a, b := Cells(g, k, n - 1), Cells(h, k, n - 1);
      assert Cells(g, k, n)[..|a|] == a && Cells(h, k, n)[..|b|] == b;
      assert Cells(g, k, n)[|a|] == Symbol(g[k + n - 1]);
      assert Cells(h, k, n)[|b|] == Symbol(h[k + n - 1]);
      CellsInjective(g, h, k, n - 1);
    }
  }

  lemma SymbolInjective(a: PieceColor, b: PieceColor)
    ensures Symbol(a) == Symbol(b) ==> a == b
  {
  }

  lemma {:induction false} RowsInjective(g: seq<PieceColor>, h: seq<PieceColor>, r: int)
    requires |g| == 25 && |h| == 25 && 0 <= r < 5 && Rows(g, r) == Rows(h, r)
    ensures forall x :: r * 5 <= x < 25 ==> g[x] == h[x]
    decreases 4 - r
  {
    var a, b := RowText(g, r), RowText(h, r);
    if r == 4 {
      assert a == b;
    } else {
      var p, q := Rows(g, r + 1), Rows(h, r + 1);
      assert Rows(g, r)[..|p|] == p && Rows(h, r)[..|q|] == q;
      assert Rows(g, r)[|p| + 1..] == a && Rows(h, r)[|q| + 1..] == b;
      RowsInjective(g, h, r + 1);
    }
    assert a[2..] == Cells(g, r * 5, 5) && b[2..] == Cells(h, r * 5, 5);
    CellsInjective(g, h, r * 5, 5);
  }

  /** equals holds exactly when the grids and the sides to move agree: the
      printed grid determines the grid, and the memory and the stacks are not
      compared. */
  lemma EqualIff(a: State, b: State)
    requires |a.grid| == 25 && |b.grid| == 25
    ensures Equal(a, b) <==> a.grid == b.grid && a.whoseMove == b.whoseMove
  {
    if Equal(a, b) {
      assert Render(a.grid, false) == Rows(a.grid, 0) && Render(b.grid, false) == Rows(b.grid, 0);
      RowsInjective(a.grid, b.grid, 0);
    }
  }
}
