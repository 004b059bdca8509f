/**
 * The whole state of a board as a value, and the state transitions of the
 * board engine (setup, make a move, undo, copy) as functions of it. The Board
 * class is proved to implement exactly these.
 */
module Positions {
  import opened PieceColors
  import opened Moves
  import opened MoveGen
  import opened MoveGenProps

  /** Grid, side to move, per-square horizontal-move memory, game-over flag and
      the two undo stacks (moves, and snapshots of the memory); the last
      element of a stack is its top. */
  datatype State = State(
    grid: seq<PieceColor>,
    horizontalMove: seq<int>,
    whoseMove: PieceColor,
    gameOver: bool,
    stack: seq<Move>,
    stack1: seq<seq<int>>)

  predicate WellFormed(s: State)
  {
    |s.grid| == 25 && |s.horizontalMove| == 25 && s.whoseMove != Empty
    && (forall m :: m in s.stack ==> InBounds(m))
    && (forall h :: h in s.stack1 ==> |h| == 25)
  }

  /** The legal moves of the position (getMoves). */
  function Legal(s: State): seq<Move>
    requires WellFormed(s)
  {
    LegalMoves(s.grid, s.horizontalMove, s.whoseMove, s.gameOver)
  }

  function Zeros(): (z: seq<int>)
    ensures |z| == 25 && forall i :: 0 <= i < 25 ==> z[i] == 0
  {
    seq(25, i => 0)
  }

  // ---------------------------------------------------------------------------
  // Setup

  /** The opening layout, bottom row first. */
  const OPENING: string := "wwwwwwwwwwbb-wwbbbbbbbbbb"

  /** The characters that the pattern \\s removes. */
  predicate IsWhitespace(ch: char)
  {
    ch == ' ' || ch == '\t' || ch == '\n' || ch == '\r' || ch as int == 11 || ch as int == 12
  }

  /** replaceAll("\\s", ""): the characters of STR that are not whitespace. */
  function StripWhitespace(str: string): (t: string)
    ensures |t| <= |str|
    ensures forall i :: 0 <= i < |t| ==> !IsWhitespace(t[i])
  {
    if str == [] then []
    else if IsWhitespace(str[|str| - 1]) then StripWhitespace(str[..|str| - 1])
    else StripWhitespace(str[..|str| - 1]) + [str[|str| - 1]]
  }

  /** The pattern [bw-]{25}: lower-case letters only. */
  predicate IsLayout(t: string)
  {
    |t| == 25 && forall i :: 0 <= i < 25 ==> t[i] in {'b', 'w', '-'}
  }

  function ColorOf(ch: char): PieceColor
    requires ch in {'b', 'B', 'w', 'W', '-'}
  {
    if ch == '-' then Empty else if ch == 'b' || ch == 'B' then Black else White
  }

  function ParseLayout(t: string): (g: seq<PieceColor>)
    requires IsLayout(t)
    ensures |g| == 25
  {
    seq(25, k requires 0 <= k < 25 => ColorOf(t[k]))
  }

  /** The position set up from grid G with NEXT to move: no horizontal memory,
      an empty memory stack, and over exactly when NEXT has no move. The move
      stack is left as it was. */
  function Positioned(g: seq<PieceColor>, next: PieceColor, stack: seq<Move>): State
    requires |g| == 25 && next != Empty
  {
    State(g, Zeros(), next, LegalMoves(g, Zeros(), next, false) == [], stack, [])
  }

  datatype SetupError = BadPlayerColor | BadBoardDescription

  datatype SetupResult = Done(state: State) | Failed(error: SetupError)

  /** setPieces: refuse a missing or EMPTY side first, then a layout that is not
      25 characters from b, w and - once whitespace is removed. */
  function SetPieces(s: State, str: string, next: Option<PieceColor>): SetupResult
  {
    if next == None || next == Some(Empty) then Failed(BadPlayerColor)
    else if !IsLayout(StripWhitespace(str)) then Failed(BadBoardDescription)
    else Done(Positioned(ParseLayout(StripWhitespace(str)), next.value, s.stack))
  }

  // ---------------------------------------------------------------------------
  // Making and undoing moves

  /** The capture steps of a chain after its first: each empties its start and
      the jumped square and puts COLOR on its landing square. */
  function ApplyTail(g: seq<PieceColor>, t: Option<Move>, color: PieceColor): (r: seq<PieceColor>)
    requires |g| == 25 && (t.Some? ==> InBounds(t.value))
    ensures |r| == 25
    decreases t
  {
    match t
    case None => g
    case Some(m) => ApplyTail(AfterJump(g, color, m.from, m.to), m.jumpTail, color)
  }

  /** makeMove: nothing unless M is legal. Otherwise play M (Played) and set
      game-over if the new side to move has no move. */
  function MakeMoveState(s: State, m: Move): (r: State)
    requires WellFormed(s)
    ensures WellFormed(r)
  {
    if m !in Legal(s) then s
    else
      var moved := Played(s, m);
      if Legal(moved) == [] then moved.(gameOver := true) else moved
  }

  /** The body of a legal makeMove before the game-over test: push the memory
      snapshot and M, move the piece (emptying every jumped square of a capture
      chain), update the horizontal memory of the start square (cleared) and,
      for a simple step, of the destination (the column delta of a sideways
      step, 0 of a forward one), and pass the turn. */
  function Played(s: State, m: Move): (r: State)
    requires WellFormed(s) && m in Legal(s)
    ensures WellFormed(r)
  {
    LegalMovesShape(s.grid, s.horizontalMove, s.whoseMove, s.gameOver);
    var color := s.grid[m.from];
    var hm := if IsJump(m) then s.horizontalMove
              else s.horizontalMove[m.to := if Row(m.from) == Row(m.to) then Col(m.to) - Col(m.from) else 0];
    var g := if IsJump(m) then AfterJump(s.grid, color, m.from, m.to)
             else s.grid[m.from := Empty][m.to := color];
    State(ApplyTail(g, m.jumpTail, color), hm[m.from := 0], Opposite(s.whoseMove),
          s.gameOver, s.stack + [m], s.stack1 + [s.horizontalMove])
  }

  /** Undo steps of a chain after its first: put an opposing piece back on the
      jumped square and empty the landing square. */
  function UndoTail(g: seq<PieceColor>, t: Option<Move>, color: PieceColor): (r: seq<PieceColor>)
    requires |g| == 25 && (t.Some? ==> InBounds(t.value))
    ensures |r| == 25
    decreases t
  {
    match t
    case None => g
    case Some(m) => UndoTail(g[JumpedIndex(m) := Opposite(color)][m.to := Empty], m.jumpTail, color)
  }

  /** undo: nothing when the move stack is empty. Otherwise pop the top move, put
      the mover's piece back on its start square, the captured pieces back, empty
      the landing squares, pass the turn back and restore the memory from the
      snapshot stack when it is not empty. The game-over flag is not touched. */
  function UndoState(s: State): (r: State)
    requires WellFormed(s)
    ensures WellFormed(r)
  {
    if s.stack == [] then s
    else
      var m := s.stack[|s.stack| - 1];
      assert m in s.stack;
      var color := Opposite(s.whoseMove);
      var g := if IsJump(m) then s.grid[m.from := color][JumpedIndex(m) := Opposite(color)][m.to := Empty]
               else s.grid[m.from := color][m.to := Empty];
      var popped := s.stack1 != [];
      assert popped ==> s.stack1[|s.stack1| - 1] in s.stack1;
      State(UndoTail(g, m.jumpTail, color),
            if popped then s.stack1[|s.stack1| - 1] else s.horizontalMove,
            Opposite(s.whoseMove), s.gameOver,
            s.stack[..|s.stack| - 1],
            if popped then s.stack1[..|s.stack1| - 1] else s.stack1)
  }

  /** copy: grid, side to move, memory and game-over flag of SRC; the target
      keeps its own stacks. */
  function CopyInto(s: State, src: State): (r: State)
    requires WellFormed(s) && WellFormed(src)
    ensures WellFormed(r)
  {
    s.(grid := src.grid, horizontalMove := src.horizontalMove, whoseMove := src.whoseMove, gameOver := src.gameOver)
  }

  /** The copy constructor: what copy gives a board just allocated, whose
      stacks are empty. */
  function CopyState(s: State): (r: State)
    requires WellFormed(s)
    ensures WellFormed(r)
  {
    s.(stack := [], stack1 := [])
  }

  /** clear: White to move, then setPieces with the opening layout; the move
      stack STACK is kept. */
  function ClearState(stack: seq<Move>): State
  {
    OpeningIsLayout();
    Positioned(ParseLayout(OPENING), White, stack)
  }

  lemma OpeningIsLayout()
    ensures StripWhitespace(OPENING) == OPENING && IsLayout(OPENING)
  {
    var t := OPENING;
    assert forall i :: 0 <= i < |t| ==> !IsWhitespace(t[i]);
    NoWhitespaceKept(t);
  }

  lemma {:induction false} NoWhitespaceKept(t: string)
    requires forall i :: 0 <= i < |t| ==> !IsWhitespace(t[i])
    ensures StripWhitespace(t) == t
  {
    if t != [] {
      NoWhitespaceKept(t[..|t| - 1]);
    }
  }

  /** Removing whitespace works piece by piece and keeps the order of what is
      kept: stripping A + B strips A, then B. */
  lemma {:induction false} StripAppend(a: string, b: string)
    ensures StripWhitespace(a + b) == StripWhitespace(a) + StripWhitespace(b)
    decreases |b|
  {
    if b == [] {
      assert a + b == a;
    } else {
      var c := b[|b| - 1];
      var b' := b[..|b| - 1];
      var ab := a + b;
      assert ab[..|ab| - 1] == a + b' && ab[|ab| - 1] == c;
      StripAppend(a, b');
      if IsWhitespace(c) {
        calc {
          StripWhitespace(ab);
          StripWhitespace(a + b');
          StripWhitespace(a) + StripWhitespace(b');
        }
      } else {
        calc {
          StripWhitespace(ab);
          StripWhitespace(a + b') + [c];
          StripWhitespace(a) + StripWhitespace(b') + [c];
          StripWhitespace(a) + (StripWhitespace(b') + [c]);
        }
      }
    }
  }

  /** Every character that is not whitespace is kept as often as STR has it. */
  lemma {:induction false} StripKeeps(str: string, ch: char)
    requires !IsWhitespace(ch)
    ensures multiset(StripWhitespace(str))[ch] == multiset(str)[ch]
  {
    if str != [] {
      var init := str[..|str| - 1];
      assert str == init + [str[|str| - 1]];
      StripKeeps(init, ch);
    }
  }

  /** One character is dropped when it is whitespace and kept otherwise. */
  lemma StripOne(ch: char)
    ensures StripWhitespace([ch]) == if IsWhitespace(ch) then [] else [ch]
  {
    assert [ch][..0] == [];
  }

  // ---------------------------------------------------------------------------
  // Rendering and equality

  function Symbol(c: PieceColor): char
  {
    match c
    case White => 'w'
    case Black => 'b'
    case Empty => '-'
  }

  /** The first N squares of the row starting at K, each followed by a space
      except the fifth. */
  function Cells(g: seq<PieceColor>, k: int, n: int): (t: string)
    requires 0 <= k && k + 5 <= |g| && 0 <= n <= 5
    ensures |t| == if n == 5 then 9 else 2 * n
  {
    if n == 0 then []
    else Cells(g, k, n - 1) + [Symbol(g[k + n - 1])] + (if n - 1 != 4 then " " else "")
  }

  /** Row R as the board prints it: two spaces, then the five squares separated by spaces. */
  function RowText(g: seq<PieceColor>, r: int): (t: string)
    requires |g| == 25 && 0 <= r < 5
    ensures |t| == 11
  {
    "  " + Cells(g, r * 5, 5)
  }

  /** Rows 4 down to R, top row first, separated by newlines: toString is Rows(g, 0). */
  function Rows(g: seq<PieceColor>, r: int): (t: string)
    requires |g| == 25 && 0 <= r < 5
    ensures |t| == 12 * (4 - r) + 11
    decreases 4 - r
  {
    if r == 4 then RowText(g, 4) else Rows(g, r + 1) + "\n" + RowText(g, r)
  }

  /** toString(legend): the grid, followed by the column letters when LEGEND. */
  function Render(g: seq<PieceColor>, legend: bool): string
    requires |g| == 25
  {
    Rows(g, 0) + if legend then "\na b c d e " else ""
  }

  /** Board equality: same printed grid and same side to move. */
  predicate Equal(a: State, b: State)
    requires |a.grid| == 25 && |b.grid| == 25
  {
    Render(a.grid, false) == Render(b.grid, false) && a.whoseMove == b.whoseMove
  }
}
