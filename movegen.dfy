/**
 * The legal-move generator of a Qirkat position, as pure functions of the grid,
 * the per-square horizontal-move memory and the side to move. Each function
 * follows the loop nest of the board engine that computes it: offsets are
 * scanned in the same order and results are concatenated in that order.
 */
module MoveGen {
  import opened PieceColors
  import opened Moves

  /** Number of squares holding C. */
  function Count(g: seq<PieceColor>, c: PieceColor): (n: nat)
    ensures n <= |g|
  {
    if g == [] then 0 else Count(g[..|g| - 1], c) + (if g[|g| - 1] == c then 1 else 0)
  }

  /** Row direction a side moves forward in, and the row it moves toward. */
  function ColorSign(who: PieceColor): int
  {
    if who == White then 1 else -1
  }

  function LastRow(who: PieceColor): int
  {
    if who == White then 4 else 0
  }

  /** The row offset J * colorSign: J rows toward the side's far edge. */
  function Forward(j: int, who: PieceColor): int
  {
    if who == White then j else -j
  }

  predicate IsGrid(g: seq<PieceColor>, hm: seq<int>)
  {
    |g| == 25 && |hm| == 25
  }

  // ---------------------------------------------------------------------------
  // Single (non-capturing) steps

  /** The square reached from K by column offset I and forward-row offset J. */
  function StepDest(k: int, i: int, j: int, who: PieceColor): (t: int)
    requires ValidSquare(k) && ValidCoords(Col(k) + i, Row(k) + Forward(j, who))
    ensures ValidSquare(t)
  {
    Index(Col(k) + i, Row(k) + Forward(j, who))
  }

  /** The test the board engine applies to offset (I, J) from square K. */
  predicate StepOk(g: seq<PieceColor>, hm: seq<int>, who: PieceColor, k: int, i: int, j: int)
    requires IsGrid(g, hm) && ValidSquare(k)
  {
    var c, r := Col(k), Row(k);
    ValidCoords(c + i, r + Forward(j, who))
    && g[Index(c + i, r + Forward(j, who))] == Empty
    && (hm[k] == 0 || hm[k] != -i || j != 0)
    && r != LastRow(who)
    && (k % 2 == 0 || i == 0 || j == 0)
  }

  function StepsAt(g: seq<PieceColor>, hm: seq<int>, who: PieceColor, k: int, i: int, j: int): seq<Move>
    requires IsGrid(g, hm) && ValidSquare(k)
  {
    if StepOk(g, hm, who, k, i, j) then [Move(k, StepDest(k, i, j, who), None)] else []
  }

  /** Steps with column offset I and row offsets 0 .. J-1. */
  function StepsColumn(g: seq<PieceColor>, hm: seq<int>, who: PieceColor, k: int, i: int, j: int): seq<Move>
    requires IsGrid(g, hm) && ValidSquare(k) && 0 <= j <= 2
  {
    if j == 0 then [] else StepsColumn(g, hm, who, k, i, j - 1) + StepsAt(g, hm, who, k, i, j - 1)
  }

  /** Steps with column offsets -1 .. I-1. */
  function StepsUpTo(g: seq<PieceColor>, hm: seq<int>, who: PieceColor, k: int, i: int): seq<Move>
    requires IsGrid(g, hm) && ValidSquare(k) && -1 <= i <= 2
    decreases i + 1
  {
    if i == -1 then [] else StepsUpTo(g, hm, who, k, i - 1) + StepsColumn(g, hm, who, k, i - 1, 2)
  }

  /** The non-capturing moves of the piece on K (none unless it belongs to WHO). */
  function StepsFrom(g: seq<PieceColor>, hm: seq<int>, who: PieceColor, k: int): seq<Move>
    requires IsGrid(g, hm) && ValidSquare(k)
  {
    if g[k] == who then StepsUpTo(g, hm, who, k, 2) else []
  }

  /** The non-capturing moves from squares 0 .. N-1, in square order. */
  function AllSteps(g: seq<PieceColor>, hm: seq<int>, who: PieceColor, n: int): seq<Move>
    requires IsGrid(g, hm) && 0 <= n <= 25
  {
    if n == 0 then [] else AllSteps(g, hm, who, n - 1) + StepsFrom(g, hm, who, n - 1)
  }

  // ---------------------------------------------------------------------------
  // Captures

  /** The capture test for row offset DR and column offset DC from square K. */
  predicate CanJump(g: seq<PieceColor>, who: PieceColor, k: int, dr: int, dc: int)
    requires |g| == 25 && ValidSquare(k)
  {
    var c, r := Col(k), Row(k);
    ValidCoords(c + dc, r + dr)
    && g[k + dr * 5 + dc] == Opposite(who)
    && (k % 2 == 0 || dr == 0 || dc == 0)
    && ValidCoords(c + 2 * dc, r + 2 * dr)
    && g[k + dr * 10 + dc * 2] == Empty
  }

  /** The hypothetical grid after the piece of WHO on FROM captures by landing on TO. */
  function AfterJump(g: seq<PieceColor>, who: PieceColor, from: int, to: int): (n: seq<PieceColor>)
    requires |g| == 25 && ValidSquare(from) && ValidSquare(to)
    ensures |n| == 25
  {
    g[from := Empty][(from + to) / 2 := Empty][to := who]
  }

  lemma CountUpdate(g: seq<PieceColor>, i: int, v: PieceColor, c: PieceColor)
    requires 0 <= i < |g|
    ensures Count(g[i := v], c) == Count(g, c) - (if g[i] == c then 1 else 0) + (if v == c then 1 else 0)
  {
    if i < |g| - 1 {
      assert g[i := v][..|g| - 1] == g[..|g| - 1][i := v];
      CountUpdate(g[..|g| - 1], i, v, c);
    } else {
      assert g[i := v][..|g| - 1] == g[..|g| - 1];
    }
  }

  /** Every capture removes one opposing piece, so chains are finite. */
  lemma CountAfterJump(g: seq<PieceColor>, who: PieceColor, k: int, dr: int, dc: int)
    requires |g| == 25 && ValidSquare(k) && who != Empty && g[k] == who
    requires CanJump(g, who, k, dr, dc)
    ensures ValidSquare(k + dr * 10 + dc * 2)
    ensures Count(AfterJump(g, who, k, k + dr * 10 + dc * 2), Opposite(who)) == Count(g, Opposite(who)) - 1
  {
    var to := k + dr * 10 + dc * 2;
    var mid := k + dr * 5 + dc;
    assert (k + to) / 2 == mid;
    var opp := Opposite(who);
    assert g[mid] == opp && g[to] == Empty;
    CountUpdate(g, k, Empty, opp);
    CountUpdate(g[k := Empty], mid, Empty, opp);
    CountUpdate(g[k := Empty][mid := Empty], to, who, opp);
  }

  /** The capture chains starting on K (the jump helper of the board engine). */
  function JumpChains(g: seq<PieceColor>, who: PieceColor, k: int): seq<Move>
    requires |g| == 25 && ValidSquare(k) && who != Empty
    decreases Count(g, Opposite(who)), 3
  {
    if g[k] == who then ChainsRows(g, who, k, 2) else []
  }

  /** Chains whose first capture has row offset -1 .. R-1. */
  function ChainsRows(g: seq<PieceColor>, who: PieceColor, k: int, r: int): seq<Move>
    requires |g| == 25 && ValidSquare(k) && who != Empty && g[k] == who && -1 <= r <= 2
    decreases Count(g, Opposite(who)), 2, r + 1
  {
    if r == -1 then [] else ChainsRows(g, who, k, r - 1) + ChainsCols(g, who, k, r - 1, 2)
  }

  /** Chains whose first capture has row offset R and column offset -1 .. C-1. */
  function ChainsCols(g: seq<PieceColor>, who: PieceColor, k: int, r: int, c: int): seq<Move>
    requires |g| == 25 && ValidSquare(k) && who != Empty && g[k] == who && -1 <= c <= 2
    decreases Count(g, Opposite(who)), 1, c + 1
  {
    if c == -1 then [] else ChainsCols(g, who, k, r, c - 1) + ChainsDir(g, who, k, r, c - 1)
  }

  /** Chains whose first capture goes from K in direction (DR, DC): the longest
      continuations when there are any, otherwise the single capture. */
  function ChainsDir(g: seq<PieceColor>, who: PieceColor, k: int, dr: int, dc: int): seq<Move>
    requires |g| == 25 && ValidSquare(k) && who != Empty && g[k] == who
    decreases Count(g, Opposite(who)), 0, 0
  {
    if !CanJump(g, who, k, dr, dc) then []
    else
      var to := k + dr * 10 + dc * 2;
      CountAfterJump(g, who, k, dr, dc);
      var tails := JumpChains(AfterJump(g, who, k, to), who, to);
      if tails != [] then Prefixed(k, to, tails) else [Move(k, to, None)]
  }

  /** The step FROM-TO followed by each of TAILS. */
  function Prefixed(from: int, to: int, tails: seq<Move>): (r: seq<Move>)
    ensures |r| == |tails|
    ensures forall i :: 0 <= i < |r| ==> r[i] == Move(from, to, Some(tails[i]))
  {
    if tails == [] then [] else Prefixed(from, to, tails[..|tails| - 1]) + [Move(from, to, Some(tails[|tails| - 1]))]
  }

  /** The piece of WHO on K can capture in some direction. */
  predicate JumpPossibleAt(g: seq<PieceColor>, who: PieceColor, k: int)
    requires |g| == 25 && ValidSquare(k)
  {
    g[k] == who && exists dr, dc :: -1 <= dr <= 1 && -1 <= dc <= 1 && CanJump(g, who, k, dr, dc)
  }

  predicate JumpPossible(g: seq<PieceColor>, who: PieceColor)
    requires |g| == 25
  {
    exists k :: 0 <= k <= MAX_INDEX && JumpPossibleAt(g, who, k)
  }

  /** The capture chains from squares 0 .. N-1, in square order. */
  function AllJumps(g: seq<PieceColor>, who: PieceColor, n: int): seq<Move>
    requires |g| == 25 && who != Empty && 0 <= n <= 25
  {
    if n == 0 then [] else AllJumps(g, who, n - 1) + JumpChains(g, who, n - 1)
  }

  /** All legal moves: none once the game is over, the capture chains when any
      capture exists (captures are mandatory), the single steps otherwise. */
  function LegalMoves(g: seq<PieceColor>, hm: seq<int>, who: PieceColor, over: bool): seq<Move>
    requires IsGrid(g, hm) && who != Empty
  {
    if over then []
    else if JumpPossible(g, who) then AllJumps(g, who, 25)
    else AllSteps(g, hm, who, 25)
  }
}
