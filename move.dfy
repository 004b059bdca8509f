/** Squares of the 5x5 board and the moves played on it. */
module Moves {

  datatype Option<T> = None | Some(value: T)

  /** Largest linearized index: squares are 0..24 in row-major order, row 0 at the bottom. */
  const MAX_INDEX: int := 24

  predicate ValidSquare(k: int)
  {
    0 <= k <= MAX_INDEX
  }

  /** Column (0 for 'a' .. 4 for 'e') and row (0 for '1' .. 4 for '5') of a square. */
  function Col(k: int): int { k % 5 }

  function Row(k: int): int { k / 5 }

  predicate ValidCoords(c: int, r: int)
  {
    0 <= c < 5 && 0 <= r < 5
  }

  /** The linearized index of column C, row R: the inverse of Col and Row. */
  function Index(c: int, r: int): (k: int)
    requires ValidCoords(c, r)
    ensures ValidSquare(k) && Col(k) == c && Row(k) == r
  {
    r * 5 + c
  }

  lemma IndexOfCoords(k: int)
    requires ValidSquare(k)
    ensures ValidCoords(Col(k), Row(k)) && Index(Col(k), Row(k)) == k
  {
  }

  /** Moving DR rows and DC columns from K adds DR * 5 + DC to the index. */
  lemma Shift(k: int, dc: int, dr: int)
    requires ValidSquare(k) && ValidCoords(Col(k) + dc, Row(k) + dr)
    ensures Index(Col(k) + dc, Row(k) + dr) == k + dr * 5 + dc
  {
    IndexOfCoords(k);
  }

  /** The squares one and two steps from K in direction (DR, DC) are on the
      board whenever their coordinates are. */
  lemma Offsets(k: int, dr: int, dc: int)
    requires ValidSquare(k) && -1 <= dr <= 1 && -1 <= dc <= 1
    ensures ValidCoords(Col(k) + dc, Row(k) + dr) ==> ValidSquare(k + dr * 5 + dc)
    ensures ValidCoords(Col(k) + 2 * dc, Row(k) + 2 * dr) ==> ValidSquare(k + dr * 10 + dc * 2)
  {
    if ValidCoords(Col(k) + dc, Row(k) + dr) {
      Shift(k, dc, dr);
    }
    if ValidCoords(Col(k) + 2 * dc, Row(k) + 2 * dr) {
      Shift(k, 2 * dc, 2 * dr);
    }
  }

  /** A single step FROM-TO, continued by JUMPTAIL when it is part of a capture chain. */
  datatype Move = Move(from: int, to: int, jumpTail: Option<Move>)

  /** A capture step moves two squares along a line. */
  predicate IsJump(m: Move)
  {
    Col(m.to) - Col(m.from) in {-2, 2} || Row(m.to) - Row(m.from) in {-2, 2}
  }

  /** The square jumped over by a capture step: the midpoint of FROM and TO. */
  function JumpedIndex(m: Move): int
  {
    (m.from + m.to) / 2
  }

  /** Every square the move names lies on the board. */
  predicate InBounds(m: Move)
  {
    ValidSquare(m.from) && ValidSquare(m.to) &&
    (m.jumpTail.Some? ==> InBounds(m.jumpTail.value))
  }

  /** Number of steps in the chain. */
  function ChainLength(m: Move): (n: nat)
    ensures n >= 1
    ensures m.jumpTail.Some? ==> n == 1 + ChainLength(m.jumpTail.value)
  {
    match m.jumpTail
    case None => 1
    case Some(t) => 1 + ChainLength(t)
  }

  /** The square the whole chain ends on. */
  function FinalTo(m: Move): int
  {
    match m.jumpTail
    case None => m.to
    case Some(t) => FinalTo(t)
  }

  /** Every square some step of the chain lands on. */
  function Landings(m: Move): (r: set<int>)
    ensures m.to in r && FinalTo(m) in r
  {
    match m.jumpTail
    case None => {m.to}
    case Some(t) => {m.to} + Landings(t)
  }

  /** Every square some step of the chain jumps over. */
  function Jumped(m: Move): set<int>
  {
    match m.jumpTail
    case None => {JumpedIndex(m)}
    case Some(t) => {JumpedIndex(m)} + Jumped(t)
  }
}
