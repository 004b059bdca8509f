/**
 * What the move generator promises, stated against direct descriptions of a
 * single step and of a capture chain rather than against the loop nests.
 */
module MoveGenProps {
  import opened PieceColors
  import opened Moves
  import opened MoveGen

  // ---------------------------------------------------------------------------
  // Reference descriptions

  /** A non-capturing step of WHO: from one of its pieces not on its last row, one
      square forward or sideways (diagonally only from an even square) onto an
      empty square, never straight back the way the piece last came sideways. */
  predicate SimpleStep(g: seq<PieceColor>, hm: seq<int>, who: PieceColor, m: Move)
    requires IsGrid(g, hm)
  {
    m.jumpTail == None && ValidSquare(m.from) && ValidSquare(m.to)
    && g[m.from] == who && Row(m.from) != LastRow(who) && g[m.to] == Empty
    && var dr, dc := Row(m.to) - Row(m.from), Col(m.to) - Col(m.from);
    (dr == 0 || dr == ColorSign(who)) && -1 <= dc <= 1 && (dr != 0 || dc != 0)
    && (m.from % 2 == 0 || dr == 0 || dc == 0)
    && !(dr == 0 && dc == -hm[m.from])
  }

  /** A capture step of WHO on grid G: two squares along a line (diagonally only
      from an even square) over an opposing piece onto an empty square. */
  predicate JumpStep(g: seq<PieceColor>, who: PieceColor, from: int, to: int)
    requires |g| == 25
  {
    ValidSquare(from) && ValidSquare(to)
    && var dr, dc := Row(to) - Row(from), Col(to) - Col(from);
    dr in {-2, 0, 2} && dc in {-2, 0, 2} && (dr != 0 || dc != 0)
    && (from % 2 == 0 || dr == 0 || dc == 0)
    && g[(from + to) / 2] == Opposite(who) && g[to] == Empty
  }

  /** A capture chain of WHO on G: connected capture steps, each judged on the
      grid left by the previous ones, ending only where no capture is left. */
  predicate IsChain(g: seq<PieceColor>, who: PieceColor, m: Move)
    requires |g| == 25
    decreases m
  {
    ValidSquare(m.from) && g[m.from] == who && JumpStep(g, who, m.from, m.to)
    && match m.jumpTail
       case None => !JumpPossibleAt(AfterJump(g, who, m.from, m.to), who, m.to)
       case Some(t) => t.from == m.to && IsChain(AfterJump(g, who, m.from, m.to), who, t)
  }

  predicate SortedByFrom(ms: seq<Move>)
  {
    forall a, b :: 0 <= a < b < |ms| ==> ms[a].from <= ms[b].from
  }

  // ---------------------------------------------------------------------------
  // Geometry of a capture

  /** A capture in direction (DR, DC) lands two squares along the line and jumps
      the square in between. */
  lemma CanJumpGeometry(g: seq<PieceColor>, who: PieceColor, k: int, dr: int, dc: int)
    requires |g| == 25 && ValidSquare(k) && who != Empty
    requires -1 <= dr <= 1 && -1 <= dc <= 1 && CanJump(g, who, k, dr, dc)
    ensures var to := k + dr * 10 + dc * 2;
      ValidSquare(to) && Row(to) == Row(k) + 2 * dr && Col(to) == Col(k) + 2 * dc
      && (k + to) / 2 == k + dr * 5 + dc && (dr != 0 || dc != 0)
      && JumpStep(g, who, k, to)
  {
    JumpOffsets(k, dr, dc);
  }

  /** The landing square two steps away in direction (DR, DC), and the square
      jumped over halfway. */
  lemma JumpOffsets(k: int, dr: int, dc: int)
    requires ValidSquare(k) && -1 <= dr <= 1 && -1 <= dc <= 1
    requires ValidCoords(Col(k) + 2 * dc, Row(k) + 2 * dr)
    ensures var to := k + dr * 10 + dc * 2;
      ValidSquare(to) && Row(to) == Row(k) + 2 * dr && Col(to) == Col(k) + 2 * dc
      && (k + to) / 2 == k + dr * 5 + dc
  {
    Shift(k, 2 * dc, 2 * dr);
    var to := k + dr * 10 + dc * 2;
    var mid := k + dr * 5 + dc;
    assert k + to == 2 * mid;
  }


  /** Conversely every capture step is the capture test of one direction. */
  lemma JumpStepDirection(g: seq<PieceColor>, who: PieceColor, k: int, to: int)
    requires |g| == 25 && ValidSquare(k) && who != Empty
    requires JumpStep(g, who, k, to)
    ensures var dr, dc := (Row(to) - Row(k)) / 2, (Col(to) - Col(k)) / 2;
      -1 <= dr <= 1 && -1 <= dc <= 1 && to == k + dr * 10 + dc * 2 && CanJump(g, who, k, dr, dc)
  {
    DoubleOffsets(k, to);
  }

  /** Arithmetic of two squares two rows and/or two columns apart. */
  lemma DoubleOffsets(k: int, to: int)
    requires ValidSquare(k) && ValidSquare(to)
    requires Row(to) - Row(k) in {-2, 0, 2} && Col(to) - Col(k) in {-2, 0, 2}
    ensures var dr, dc := (Row(to) - Row(k)) / 2, (Col(to) - Col(k)) / 2;
      -1 <= dr <= 1 && -1 <= dc <= 1 && to == k + dr * 10 + dc * 2
      && (k + to) / 2 == k + dr * 5 + dc
      && ValidCoords(Col(k) + dc, Row(k) + dr) && ValidCoords(Col(k) + 2 * dc, Row(k) + 2 * dr)
  {
    var dr, dc := (Row(to) - Row(k)) / 2, (Col(to) - Col(k)) / 2;
    Halve(Row(to) - Row(k));
    Halve(Col(to) - Col(k));
    IndexOfCoords(to);
    Shift(k, 2 * dc, 2 * dr);
    var mid := k + dr * 5 + dc;
    assert k + to == 2 * mid;
  }

  lemma Halve(x: int)
    requires x in {-2, 0, 2}
    ensures x == 2 * (x / 2) && -1 <= x / 2 <= 1
  {
  }

  // ---------------------------------------------------------------------------
  // Single steps

  lemma StepOkMeans(g: seq<PieceColor>, hm: seq<int>, who: PieceColor, k: int, i: int, j: int)
    requires IsGrid(g, hm) && ValidSquare(k) && who != Empty && g[k] == who
    requires -1 <= i <= 1 && 0 <= j <= 1
    ensures StepOk(g, hm, who, k, i, j) <==>
      (ValidCoords(Col(k) + i, Row(k) + Forward(j, who))
       && SimpleStep(g, hm, who, Move(k, StepDest(k, i, j, who), None)))
  {
    IndexOfCoords(k);
  }

  /** The step generated for offsets (I, J), when the test admits it. */
  predicate GeneratedAt(g: seq<PieceColor>, hm: seq<int>, who: PieceColor, k: int, i: int, j: int, m: Move)
    requires IsGrid(g, hm) && ValidSquare(k)
  {
    StepOk(g, hm, who, k, i, j) && m == Move(k, StepDest(k, i, j, who), None)
  }

  lemma StepsColumnMembers(g: seq<PieceColor>, hm: seq<int>, who: PieceColor, k: int, i: int, m: Move)
    requires IsGrid(g, hm) && ValidSquare(k)
    ensures m in StepsColumn(g, hm, who, k, i, 2) <==>
      GeneratedAt(g, hm, who, k, i, 0, m) || GeneratedAt(g, hm, who, k, i, 1, m)
  {
    assert StepsColumn(g, hm, who, k, i, 1) == StepsAt(g, hm, who, k, i, 0);
  }

  lemma StepsFromSplit(g: seq<PieceColor>, hm: seq<int>, who: PieceColor, k: int)
    requires IsGrid(g, hm) && ValidSquare(k) && g[k] == who
    ensures StepsFrom(g, hm, who, k) == StepsColumn(g, hm, who, k, -1, 2)
      + StepsColumn(g, hm, who, k, 0, 2) + StepsColumn(g, hm, who, k, 1, 2)
  {
    assert StepsUpTo(g, hm, who, k, 0) == StepsColumn(g, hm, who, k, -1, 2);
  }

  /** The steps generated from a square of the side to move are those of the six offsets. */
  lemma StepsFromMembers(g: seq<PieceColor>, hm: seq<int>, who: PieceColor, k: int, m: Move)
    requires IsGrid(g, hm) && ValidSquare(k) && g[k] == who
    ensures m in StepsFrom(g, hm, who, k) <==>
      GeneratedAt(g, hm, who, k, -1, 0, m) || GeneratedAt(g, hm, who, k, -1, 1, m)
      || GeneratedAt(g, hm, who, k, 0, 0, m) || GeneratedAt(g, hm, who, k, 0, 1, m)
      || GeneratedAt(g, hm, who, k, 1, 0, m) || GeneratedAt(g, hm, who, k, 1, 1, m)
  {
    StepsFromSplit(g, hm, who, k);
    StepsColumnMembers(g, hm, who, k, -1, m);
    StepsColumnMembers(g, hm, who, k, 0, m);
    StepsColumnMembers(g, hm, who, k, 1, m);
  }

  lemma GeneratedIsSimple(g: seq<PieceColor>, hm: seq<int>, who: PieceColor, k: int, i: int, j: int, m: Move)
    requires IsGrid(g, hm) && ValidSquare(k) && who != Empty && g[k] == who
    requires -1 <= i <= 1 && 0 <= j <= 1 && GeneratedAt(g, hm, who, k, i, j, m)
    ensures m.from == k && SimpleStep(g, hm, who, m)
  {
    StepOkMeans(g, hm, who, k, i, j);
  }

  lemma StepsFromSound(g: seq<PieceColor>, hm: seq<int>, who: PieceColor, k: int, m: Move)
    requires IsGrid(g, hm) && ValidSquare(k) && who != Empty
    requires m in StepsFrom(g, hm, who, k)
    ensures m.from == k && SimpleStep(g, hm, who, m)
  {
    StepsFromMembers(g, hm, who, k, m);
    if GeneratedAt(g, hm, who, k, -1, 0, m) { GeneratedIsSimple(g, hm, who, k, -1, 0, m); }
    else if GeneratedAt(g, hm, who, k, -1, 1, m) { GeneratedIsSimple(g, hm, who, k, -1, 1, m); }
    else if GeneratedAt(g, hm, who, k, 0, 0, m) { GeneratedIsSimple(g, hm, who, k, 0, 0, m); }
    else if GeneratedAt(g, hm, who, k, 0, 1, m) { GeneratedIsSimple(g, hm, who, k, 0, 1, m); }
    else if GeneratedAt(g, hm, who, k, 1, 0, m) { GeneratedIsSimple(g, hm, who, k, 1, 0, m); }
    else { GeneratedIsSimple(g, hm, who, k, 1, 1, m); }
  }

  /** Arithmetic of a square one column and/or one forward row away. */
  lemma StepOffsets(k: int, to: int, who: PieceColor)
    requires ValidSquare(k) && ValidSquare(to)
    requires Row(to) - Row(k) in {0, ColorSign(who)} && -1 <= Col(to) - Col(k) <= 1
    ensures var i, j := Col(to) - Col(k), if Row(to) == Row(k) then 0 else 1;
      ValidCoords(Col(k) + i, Row(k) + Forward(j, who)) && StepDest(k, i, j, who) == to
  {
    IndexOfCoords(to);
  }

  lemma SimpleIsGenerated(g: seq<PieceColor>, hm: seq<int>, who: PieceColor, k: int, i: int, j: int, m: Move)
    requires IsGrid(g, hm) && ValidSquare(k) && who != Empty
    requires m.from == k && SimpleStep(g, hm, who, m)
    requires i == Col(m.to) - Col(k) && j == if Row(m.to) == Row(k) then 0 else 1
    ensures GeneratedAt(g, hm, who, k, i, j, m)
  {
    StepOffsets(k, m.to, who);
    StepOkMeans(g, hm, who, k, i, j);
  }

  lemma StepsFromComplete(g: seq<PieceColor>, hm: seq<int>, who: PieceColor, k: int, m: Move)
    requires IsGrid(g, hm) && ValidSquare(k) && who != Empty
    requires m.from == k && SimpleStep(g, hm, who, m)
    ensures m in StepsFrom(g, hm, who, k)
  {
    var i := Col(m.to) - Col(k);
    var j := if Row(m.to) == Row(k) then 0 else 1;
    StepsFromMembers(g, hm, who, k, m);
    if i == -1 {
      if j == 0 { SimpleIsGenerated(g, hm, who, k, -1, 0, m); } else { SimpleIsGenerated(g, hm, who, k, -1, 1, m); }
    } else if i == 0 {
      if j == 0 { SimpleIsGenerated(g, hm, who, k, 0, 0, m); } else { SimpleIsGenerated(g, hm, who, k, 0, 1, m); }
    } else {
      if j == 0 { SimpleIsGenerated(g, hm, who, k, 1, 0, m); } else { SimpleIsGenerated(g, hm, who, k, 1, 1, m); }
    }
  }

  /** A square's generated steps are exactly the simple steps from it. */
  lemma StepsFromIff(g: seq<PieceColor>, hm: seq<int>, who: PieceColor, k: int, m: Move)
    requires IsGrid(g, hm) && ValidSquare(k) && who != Empty
    ensures m in StepsFrom(g, hm, who, k) <==> m.from == k && SimpleStep(g, hm, who, m)
  {
    if m in StepsFrom(g, hm, who, k) { StepsFromSound(g, hm, who, k, m); }
    if m.from == k && SimpleStep(g, hm, who, m) { StepsFromComplete(g, hm, who, k, m); }
  }

  /** The single steps from squares below N are exactly the simple steps from
      those squares, and they come in ascending order of their start square. */
  lemma AllStepsIff(g: seq<PieceColor>, hm: seq<int>, who: PieceColor, n: int)
    requires IsGrid(g, hm) && who != Empty && 0 <= n <= 25
    ensures forall m :: m in AllSteps(g, hm, who, n) <==> 0 <= m.from < n && SimpleStep(g, hm, who, m)
    ensures SortedByFrom(AllSteps(g, hm, who, n))
  {
    AllStepsMembers(g, hm, who, n);
    AllStepsSorted(g, hm, who, n);
  }

  lemma AllStepsMembers(g: seq<PieceColor>, hm: seq<int>, who: PieceColor, n: int)
    requires IsGrid(g, hm) && who != Empty && 0 <= n <= 25
    ensures forall m :: m in AllSteps(g, hm, who, n) <==> 0 <= m.from < n && SimpleStep(g, hm, who, m)
  {
    forall m ensures m in AllSteps(g, hm, who, n) <==> 0 <= m.from < n && SimpleStep(g, hm, who, m) {
      AllStepsMember(g, hm, who, n, m);
    }
  }

  lemma {:induction false} AllStepsMember(g: seq<PieceColor>, hm: seq<int>, who: PieceColor, n: int, m: Move)
    requires IsGrid(g, hm) && who != Empty && 0 <= n <= 25
    ensures m in AllSteps(g, hm, who, n) <==> 0 <= m.from < n && SimpleStep(g, hm, who, m)
  {
    hide StepsFrom;
    if n > 0 {
      var simple := SimpleStep(g, hm, who, m);
      AllStepsMember(g, hm, who, n - 1, m);
      StepsFromIff(g, hm, who, n - 1, m);
      ConcatMember(AllSteps(g, hm, who, n - 1), StepsFrom(g, hm, who, n - 1), m,
                   0 <= m.from < n - 1 && simple, m.from == n - 1 && simple);
    }
  }

  lemma ConcatMember<T>(pre: seq<T>, last: seq<T>, x: T, a: bool, b: bool)
    requires (x in pre <==> a) && (x in last <==> b)
    ensures x in pre + last <==> a || b
  {
  }

  lemma {:induction false} AllStepsSorted(g: seq<PieceColor>, hm: seq<int>, who: PieceColor, n: int)
    requires IsGrid(g, hm) && who != Empty && 0 <= n <= 25
    ensures SortedByFrom(AllSteps(g, hm, who, n))
  {
    hide StepsFrom;
    if n > 0 {
      AllStepsSorted(g, hm, who, n - 1);
      var pre, last := AllSteps(g, hm, who, n - 1), StepsFrom(g, hm, who, n - 1);
      forall m | m in pre ensures m.from < n - 1 {
        AllStepsMember(g, hm, who, n - 1, m);
      }
      forall m | m in last ensures m.from == n - 1 {
        StepsFromIff(g, hm, who, n - 1, m);
      }
      SortedConcat(pre, last, n - 1);
    }
  }

  /** Moves from squares below K followed by moves from K are in order when the first part is. */
  lemma SortedConcat(pre: seq<Move>, last: seq<Move>, k: int)
    requires SortedByFrom(pre)
    requires forall m :: m in pre ==> m.from < k
    requires forall m :: m in last ==> m.from == k
    ensures SortedByFrom(pre + last)
  {
    var all := pre + last;
    forall a, b | 0 <= a < b < |all| ensures all[a].from <= all[b].from {
      if b < |pre| {
      } else if a < |pre| {
        assert all[a] in pre && all[b] in last;
      } else {
        assert all[a] in last && all[b] in last;
      }
    }
  }

  // ---------------------------------------------------------------------------
  // Capture chains: a square has chains exactly when it has a capture

  lemma ChainsDirNonEmpty(g: seq<PieceColor>, who: PieceColor, k: int, dr: int, dc: int)
    requires |g| == 25 && ValidSquare(k) && who != Empty && g[k] == who
    ensures ChainsDir(g, who, k, dr, dc) != [] <==> CanJump(g, who, k, dr, dc)
  {
  }

  lemma {:induction false} ChainsColsNonEmpty(g: seq<PieceColor>, who: PieceColor, k: int, r: int, c: int)
    requires |g| == 25 && ValidSquare(k) && who != Empty && g[k] == who && -1 <= c <= 2
    ensures ChainsCols(g, who, k, r, c) != [] <==> exists dc :: -1 <= dc < c && CanJump(g, who, k, r, dc)
    decreases c + 1
  {
    if c > -1 {
      ChainsColsNonEmpty(g, who, k, r, c - 1);
      ChainsDirNonEmpty(g, who, k, r, c - 1);
    }
  }

  lemma {:induction false} ChainsRowsNonEmpty(g: seq<PieceColor>, who: PieceColor, k: int, r: int)
    requires |g| == 25 && ValidSquare(k) && who != Empty && g[k] == who && -1 <= r <= 2
    ensures ChainsRows(g, who, k, r) != [] <==>
      exists dr, dc :: -1 <= dr < r && -1 <= dc <= 1 && CanJump(g, who, k, dr, dc)
    decreases r + 1
  {
    if r > -1 {
      ChainsRowsNonEmpty(g, who, k, r - 1);
      ChainsColsNonEmpty(g, who, k, r - 1, 2);
    }
  }

  /** The jump helper finds chains from K exactly when a capture from K is possible. */
  lemma JumpChainsNonEmpty(g: seq<PieceColor>, who: PieceColor, k: int)
    requires |g| == 25 && ValidSquare(k) && who != Empty
    ensures JumpChains(g, who, k) != [] <==> JumpPossibleAt(g, who, k)
  {
    if g[k] == who {
      ChainsRowsNonEmpty(g, who, k, 2);
    }
  }

  // ---------------------------------------------------------------------------
  // Capture chains: every generated chain is a maximal chain

  lemma {:induction false} JumpChainsSound(g: seq<PieceColor>, who: PieceColor, k: int)
    requires |g| == 25 && ValidSquare(k) && who != Empty
    ensures forall m :: m in JumpChains(g, who, k) ==> m.from == k && IsChain(g, who, m)
    decreases Count(g, Opposite(who)), 3
  {
    if g[k] == who {
      ChainsRowsSound(g, who, k, 2);
    }
  }

  lemma {:induction false} ChainsRowsSound(g: seq<PieceColor>, who: PieceColor, k: int, r: int)
    requires |g| == 25 && ValidSquare(k) && who != Empty && g[k] == who && -1 <= r <= 2
    ensures forall m :: m in ChainsRows(g, who, k, r) ==> m.from == k && IsChain(g, who, m)
    decreases Count(g, Opposite(who)), 2, r + 1
  {
    if r > -1 {
      ChainsRowsSound(g, who, k, r - 1);
      ChainsColsSound(g, who, k, r - 1, 2);
    }
  }

  lemma {:induction false} ChainsColsSound(g: seq<PieceColor>, who: PieceColor, k: int, r: int, c: int)
    requires |g| == 25 && ValidSquare(k) && who != Empty && g[k] == who && -1 <= r <= 1 && -1 <= c <= 2
    ensures forall m :: m in ChainsCols(g, who, k, r, c) ==> m.from == k && IsChain(g, who, m)
    decreases Count(g, Opposite(who)), 1, c + 1
  {
    if c > -1 {
      ChainsColsSound(g, who, k, r, c - 1);
      ChainsDirSound(g, who, k, r, c - 1);
    }
  }

  lemma {:induction false} ChainsDirSound(g: seq<PieceColor>, who: PieceColor, k: int, dr: int, dc: int)
    requires |g| == 25 && ValidSquare(k) && who != Empty && g[k] == who && -1 <= dr <= 1 && -1 <= dc <= 1
    ensures forall m :: m in ChainsDir(g, who, k, dr, dc) ==> m.from == k && IsChain(g, who, m)
    decreases Count(g, Opposite(who)), 0, 0
  {
    hide JumpChains, Count, IsChain, JumpPossibleAt;
    if CanJump(g, who, k, dr, dc) {
      var to := k + dr * 10 + dc * 2;
      CanJumpGeometry(g, who, k, dr, dc);
      CountAfterJump(g, who, k, dr, dc);
      var n := AfterJump(g, who, k, to);
      var tails := JumpChains(n, who, to);
      JumpChainsSound(n, who, to);
      JumpChainsNonEmpty(n, who, to);
      assert ChainsDir(g, who, k, dr, dc) == if tails != [] then Prefixed(k, to, tails) else [Move(k, to, None)];
      forall m | m in ChainsDir(g, who, k, dr, dc) ensures m.from == k && IsChain(g, who, m) {
        if tails != [] {
          var i :| 0 <= i < |tails| && m == Prefixed(k, to, tails)[i];
          assert tails[i] in tails;
          ChainExtends(g, who, k, to, tails[i]);
        } else {
          ChainSingle(g, who, k, to);
        }
      }
    }
  }

  /** A capture step followed by a chain from its landing square is a chain. */
  lemma ChainExtends(g: seq<PieceColor>, who: PieceColor, k: int, to: int, t: Move)
    requires |g| == 25 && ValidSquare(k) && g[k] == who && JumpStep(g, who, k, to)
    requires t.from == to && IsChain(AfterJump(g, who, k, to), who, t)
    ensures IsChain(g, who, Move(k, to, Some(t)))
  {
  }

  /** A capture step after which no capture is left is a chain by itself. */
  lemma ChainSingle(g: seq<PieceColor>, who: PieceColor, k: int, to: int)
    requires |g| == 25 && ValidSquare(k) && g[k] == who && JumpStep(g, who, k, to)
    requires !JumpPossibleAt(AfterJump(g, who, k, to), who, to)
    ensures IsChain(g, who, Move(k, to, None))
  {
  }

  /** The first capture of a chain: on the board, from a piece of WHO over an
      opposing piece onto an empty square, and continued by a chain from its
      landing square on the grid it leaves. */
  lemma ChainHead(g: seq<PieceColor>, who: PieceColor, m: Move)
    requires |g| == 25 && who != Empty && IsChain(g, who, m)
    ensures ValidSquare(m.from) && ValidSquare(m.to) && ValidSquare(JumpedIndex(m))
    ensures g[m.from] == who && g[JumpedIndex(m)] == Opposite(who) && g[m.to] == Empty
    ensures JumpStep(g, who, m.from, m.to)
    ensures m.jumpTail.Some? ==>
      m.jumpTail.value.from == m.to && IsChain(AfterJump(g, who, m.from, m.to), who, m.jumpTail.value)
    ensures m.jumpTail.None? ==> !JumpPossibleAt(AfterJump(g, who, m.from, m.to), who, m.to)
  {
    hide JumpPossibleAt, Row, Col, AfterJump, Opposite;
    assert ValidSquare(m.from) && ValidSquare(m.to) && g[m.from] == who && JumpStep(g, who, m.from, m.to);
    hide JumpStep;
    assert m.jumpTail.Some? ==>
      m.jumpTail.value.from == m.to && IsChain(AfterJump(g, who, m.from, m.to), who, m.jumpTail.value);
  }

  /** Chains name only squares of the board, and their first step is a capture. */
  lemma {:induction false} ChainInBounds(g: seq<PieceColor>, who: PieceColor, m: Move)
    requires |g| == 25 && IsChain(g, who, m)
    ensures InBounds(m) && IsJump(m)
    decreases m
  {
    if m.jumpTail.Some? {
      ChainInBounds(AfterJump(g, who, m.from, m.to), who, m.jumpTail.value);
    }
  }

  /** The capture chains from squares below N are maximal chains from those
      squares, in ascending order of start square, and there are some exactly
      when one of those squares has a capture. */
  lemma {:induction false} AllJumpsSound(g: seq<PieceColor>, who: PieceColor, n: int)
    requires |g| == 25 && who != Empty && 0 <= n <= 25
    ensures forall m :: m in AllJumps(g, who, n) ==> 0 <= m.from < n && IsChain(g, who, m)
    ensures SortedByFrom(AllJumps(g, who, n))
    ensures AllJumps(g, who, n) != [] <==> exists k :: 0 <= k < n && JumpPossibleAt(g, who, k)
  {
    if n > 0 {
      AllJumpsSound(g, who, n - 1);
      JumpChainsSound(g, who, n - 1);
      JumpChainsNonEmpty(g, who, n - 1);
      var pre, last := AllJumps(g, who, n - 1), JumpChains(g, who, n - 1);
      var all := pre + last;
      forall a, b | 0 <= a < b < |all| ensures all[a].from <= all[b].from {
        if b < |pre| {
        } else if a < |pre| {
          assert all[a] in pre && all[b] in last;
        } else {
          assert all[a] in last && all[b] in last;
        }
      }
    }
  }

  // ---------------------------------------------------------------------------
  // Capture chains: every maximal chain is generated

  lemma {:induction false} ChainsColsContain(g: seq<PieceColor>, who: PieceColor, k: int, r: int, c: int, dc: int, m: Move)
    requires |g| == 25 && ValidSquare(k) && who != Empty && g[k] == who && -1 <= dc < c <= 2
    requires m in ChainsDir(g, who, k, r, dc)
    ensures m in ChainsCols(g, who, k, r, c)
    decreases c
  {
    if dc < c - 1 {
      ChainsColsContain(g, who, k, r, c - 1, dc, m);
    }
  }

  lemma {:induction false} ChainsRowsContain(g: seq<PieceColor>, who: PieceColor, k: int, r: int, dr: int, dc: int, m: Move)
    requires |g| == 25 && ValidSquare(k) && who != Empty && g[k] == who
    requires -1 <= dr < r <= 2 && -1 <= dc <= 1
    requires m in ChainsDir(g, who, k, dr, dc)
    ensures m in ChainsRows(g, who, k, r)
    decreases r
  {
    if dr < r - 1 {
      ChainsRowsContain(g, who, k, r - 1, dr, dc, m);
    } else {
      ChainsColsContain(g, who, k, dr, 2, dc, m);
    }
  }

  /** Every maximal capture chain from a square is among the chains the jump
      helper finds there. */
  lemma {:induction false} JumpChainsComplete(g: seq<PieceColor>, who: PieceColor, m: Move)
    requires |g| == 25 && who != Empty && IsChain(g, who, m)
    ensures m in JumpChains(g, who, m.from)
    decreases m
  {
    hide Count, IsChain, JumpPossibleAt, ChainsRows, ChainsCols, AfterJump, Row, Col, JumpStep, CanJump;
    ChainHead(g, who, m);
    var k, to := m.from, m.to;
    JumpStepDirection(g, who, k, to);
    var dr, dc := (Row(to) - Row(k)) / 2, (Col(to) - Col(k)) / 2;
    CountAfterJump(g, who, k, dr, dc);
    var n := AfterJump(g, who, k, to);
    var tails := JumpChains(n, who, to);
    assert ChainsDir(g, who, k, dr, dc) ==
      if tails != [] then Prefixed(k, to, tails) else [Move(k, to, None)];
    match m.jumpTail {
      case None =>
        JumpChainsNonEmpty(n, who, to);
        assert m == Move(k, to, None);
      case Some(t) =>
        JumpChainsComplete(n, who, t);
        var i :| 0 <= i < |tails| && tails[i] == t;
        assert Prefixed(k, to, tails)[i] == m;
    }
    ChainsRowsContain(g, who, k, 2, dr, dc, m);
  }

  lemma {:induction false} AllJumpsContain(g: seq<PieceColor>, who: PieceColor, n: int, m: Move)
    requires |g| == 25 && who != Empty && 0 <= n <= 25
    requires 0 <= m.from < n && m in JumpChains(g, who, m.from)
    ensures m in AllJumps(g, who, n)
    decreases n
  {
    if m.from < n - 1 {
      AllJumpsContain(g, who, n - 1, m);
    }
  }

  /** The capture chains of the whole board are exactly the maximal chains. */
  lemma AllJumpsIff(g: seq<PieceColor>, who: PieceColor)
    requires |g| == 25 && who != Empty
    ensures forall m :: m in AllJumps(g, who, 25) <==> IsChain(g, who, m)
  {
    AllJumpsSound(g, who, 25);
    forall m | IsChain(g, who, m) ensures m in AllJumps(g, who, 25) {
      JumpChainsComplete(g, who, m);
      AllJumpsContain(g, who, 25, m);
    }
  }

  /** The legal moves: none once the game is over; when a capture exists, only
      capture chains and at least one of them (captures are mandatory);
      otherwise exactly the simple steps, in ascending order of start square. */
  lemma LegalMovesShape(g: seq<PieceColor>, hm: seq<int>, who: PieceColor, over: bool)
    requires IsGrid(g, hm) && who != Empty
    ensures over ==> LegalMoves(g, hm, who, over) == []
    ensures !over && JumpPossible(g, who) ==>
      LegalMoves(g, hm, who, over) != []
      && (forall m :: m in LegalMoves(g, hm, who, over) <==> IsChain(g, who, m))
      && forall m :: m in LegalMoves(g, hm, who, over) ==> IsJump(m)
    ensures !over && !JumpPossible(g, who) ==>
      forall m :: m in LegalMoves(g, hm, who, over) <==> SimpleStep(g, hm, who, m)
    ensures SortedByFrom(LegalMoves(g, hm, who, over))
    ensures forall m :: m in LegalMoves(g, hm, who, over) ==> InBounds(m)
  {
    if !over {
      if JumpPossible(g, who) {
        AllJumpsSound(g, who, 25);
        AllJumpsIff(g, who);
        forall m | m in AllJumps(g, who, 25) ensures InBounds(m) && IsJump(m) {
          ChainInBounds(g, who, m);
        }
      } else {
        AllStepsIff(g, hm, who, 25);
      }
    }
  }
}
