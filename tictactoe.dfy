/** Tic-tac-toe: the board as a 3×3 array that moves write in place, the
    turn, the legal moves, the winner check, and minimax search over the
    game tree. The game-theoretic reasoning is stated on `Grid`, the
    row-major snapshot of the board. */
module TicTacToe {
  import opened Wrappers

  /** A square: `None`, `"X"` or `"O"`. */
  datatype Cell = Empty | X | O

  /** A player's mark. */
  type Mark = c: Cell | c != Empty witness X

  /** The nine squares in row-major order: square (i, j) is at 3 * i + j. */
  type Grid = g: seq<Cell> | |g| == 9 witness [Empty, Empty, Empty, Empty, Empty, Empty, Empty, Empty, Empty]

  /** A move `(i, j)`: row, then column. */
  type Action = (int, int)

  /** Stand-ins for `-math.inf` and `math.inf`: below and above every utility. */
  const NegInf: int := -2
  const PosInf: int := 2

  const AllCells: set<Action> := {(0, 0), (0, 1), (0, 2), (1, 0), (1, 1), (1, 2), (2, 0), (2, 1), (2, 2)}

  predicate OnBoard(a: Action) {
    0 <= a.0 < 3 && 0 <= a.1 < 3
  }

  lemma AllCellsAreOnBoard(a: Action)
    ensures a in AllCells <==> OnBoard(a)
  {
  }

  function Idx(a: Action): int {
    3 * a.0 + a.1
  }

  predicate Is3x3(b: array2<Cell>) {
    b.Length0 == 3 && b.Length1 == 3
  }

  /** The board's contents. */
  function Snapshot(b: array2<Cell>): (g: Grid)
    requires Is3x3(b)
    reads b
  {
    [b[0, 0], b[0, 1], b[0, 2], b[1, 0], b[1, 1], b[1, 2], b[2, 0], b[2, 1], b[2, 2]]
  }

  lemma SnapshotAt(b: array2<Cell>, i: int, j: int)
    requires Is3x3(b) && 0 <= i < 3 && 0 <= j < 3
    ensures Snapshot(b)[Idx((i, j))] == b[i, j]
  {
  }

  const EmptyGrid: Grid := [Empty, Empty, Empty, Empty, Empty, Empty, Empty, Empty, Empty]

  // ---------------------------------------------------------------------
  // Counting, turn order and legal moves

  /** How many squares of `s` hold `c`. */
  function CountOf(s: seq<Cell>, c: Cell): (n: nat)
    ensures n <= |s|
  {
    if s == [] then 0 else CountOf(s[..|s| - 1], c) + (if s[|s| - 1] == c then 1 else 0)
  }

  /** No square holds `c` exactly when the count is 0. */
  lemma {:induction false} CountZero(s: seq<Cell>, c: Cell)
    ensures CountOf(s, c) == 0 <==> forall k :: 0 <= k < |s| ==> s[k] != c
  {
    if s != [] {
      var init := s[..|s| - 1];
      CountZero(init, c);
      assert forall k :: 0 <= k < |init| ==> init[k] == s[k];
    }
  }

  /** Overwriting one square moves one unit of count from the old value to
      the new one. */
  lemma {:induction false} CountUpdate(s: seq<Cell>, k: int, x: Cell, c: Cell)
    requires 0 <= k < |s|
    ensures CountOf(s[k := x], c) == CountOf(s, c) - (if s[k] == c then 1 else 0) + (if x == c then 1 else 0)
  {
    var t := s[k := x];
    if k < |s| - 1 {
      assert t[..|t| - 1] == s[..|s| - 1][k := x];
      CountUpdate(s[..|s| - 1], k, x, c);
    } else {
      assert t[..|t| - 1] == s[..|s| - 1];
    }
  }

  /** A sequence holding only `c` counts its whole length. */
  lemma {:induction false} CountAll(s: seq<Cell>, c: Cell)
    requires forall k :: 0 <= k < |s| ==> s[k] == c
    ensures CountOf(s, c) == |s|
  {
    if s != [] {
      CountAll(s[..|s| - 1], c);
    }
  }

  function EmptyCount(g: Grid): nat {
    CountOf(g, Empty)
  }

  predicate Full(g: Grid) {
    forall k :: 0 <= k < 9 ==> g[k] != Empty
  }

  /** Whose turn it is: X when both have made as many moves. */
  function Turn(g: Grid): Mark {
    if CountOf(g, X) == CountOf(g, O) then X else O
  }

  function Opp(p: Mark): Mark {
    if p == X then O else X
  }

  /** The squares still open: the value of `actions`. */
  function EmptyCells(g: Grid): (r: set<Action>)
    ensures forall a :: a in r ==> OnBoard(a) && g[Idx(a)] == Empty
  {
    set a | a in AllCells && g[Idx(a)] == Empty
  }

  /** The board after the current player marks square `a`. */
  function Place(g: Grid, a: Action): Grid
    requires OnBoard(a)
  {
    g[Idx(a) := Turn(g)]
  }

  /** A move writes the mover's mark into its own square and nothing else. */
  lemma PlaceWritesOneSquare(g: Grid, a: Action)
    requires OnBoard(a)
    ensures Place(g, a)[Idx(a)] == Turn(g)
    ensures forall k :: 0 <= k < 9 && k != Idx(a) ==> Place(g, a)[k] == g[k]
    ensures Turn(g) != Empty
  {
  }

  /** A move on an open square closes exactly that square. */
  lemma PlaceShrinks(g: Grid, a: Action)
    requires a in EmptyCells(g)
    ensures EmptyCount(Place(g, a)) == EmptyCount(g) - 1
    ensures EmptyCells(Place(g, a)) == EmptyCells(g) - {a}
  {
    CountUpdate(g, Idx(a), Turn(g), Empty);
    var r := Place(g, a);
    forall b | b in AllCells
      ensures (b in EmptyCells(r)) <==> (b in EmptyCells(g) && b != a)
    {
      assert Idx(b) == Idx(a) <==> b == a;
    }
  }

  /** There is an open square exactly when the board is not full. */
  lemma OpenSquares(g: Grid)
    ensures EmptyCells(g) == {} <==> Full(g)
    ensures Full(g) <==> EmptyCount(g) == 0
  {
    CountZero(g, Empty);
    if !Full(g) {
      var k :| 0 <= k < 9 && g[k] == Empty;
      var a := (k / 3, k % 3);
      assert a in AllCells && Idx(a) == k;
      assert a in EmptyCells(g);
    }
  }

  /** `initial_state` */
  method InitialState() returns (board: array2<Cell>)
    ensures fresh(board) && Is3x3(board)
    ensures Snapshot(board) == EmptyGrid
  {
    board := new Cell[3, 3]((i, j) => Empty);
  }

  /** On the empty board X moves first, every square is open and the game
      is not over. */
  lemma InitialStateFacts()
    ensures Turn(EmptyGrid) == X
    ensures EmptyCells(EmptyGrid) == AllCells
    ensures EmptyCount(EmptyGrid) == 9
    ensures !Terminal(EmptyGrid, AsWritten) && !Terminal(EmptyGrid, Corrected)
  {
    assert CountOf(EmptyGrid, X) == 0 && CountOf(EmptyGrid, O) == 0 by {
      CountZero(EmptyGrid, X);
      CountZero(EmptyGrid, O);
    }
    CountAll(EmptyGrid, Empty);
  }

  /** `player`: count the marks in row-major order. */
  method Player(board: array2<Cell>) returns (p: Mark)
    requires Is3x3(board)
    ensures p == Turn(Snapshot(board))
    ensures p == X <==> CountOf(Snapshot(board), X) == CountOf(Snapshot(board), O)
  {
    ghost var g := Snapshot(board);
    var numX, numO := 0, 0;
    for i := 0 to 3
      invariant numX == CountOf(g[..3 * i], X) && numO == CountOf(g[..3 * i], O)
    {
      for j := 0 to 3
        invariant numX == CountOf(g[..3 * i + j], X) && numO == CountOf(g[..3 * i + j], O)
      {
        SnapshotAt(board, i, j);
        assert g[..3 * i + j + 1][..3 * i + j] == g[..3 * i + j];
        if board[i, j] == X {
          numX := numX + 1;
        }
        if board[i, j] == O {
          numO := numO + 1;
        }
      }
    }
    assert g[..9] == g;
    p := if numX == numO then X else O;
  }

  /** `actions`: every open square, collected in row-major order. */
  method Actions(board: array2<Cell>) returns (ret: set<Action>)
    requires Is3x3(board)
    ensures forall a :: a in ret <==> OnBoard(a) && Snapshot(board)[Idx(a)] == Empty
    ensures ret == EmptyCells(Snapshot(board))
  {
    ghost var g := Snapshot(board);
    ret := {};
    for i := 0 to 3
      invariant forall a :: a in ret <==> OnBoard(a) && Idx(a) < 3 * i && g[Idx(a)] == Empty
    {
      for j := 0 to 3
        invariant forall a :: a in ret <==> OnBoard(a) && Idx(a) < 3 * i + j && g[Idx(a)] == Empty
      {
        SnapshotAt(board, i, j);
        if board[i, j] == Empty {
          ret := ret + {(i, j)};
        }
        forall a | OnBoard(a)
          ensures Idx(a) == 3 * i + j <==> a == (i, j)
        {
        }
      }
    }
    forall a
      ensures a in ret <==> a in EmptyCells(g)
    {
      AllCellsAreOnBoard(a);
    }
  }

  /** What `result` ends in: the move was made, the square was taken (the
      "already been made" exception) or the index was outside the list
      (Python's IndexError). */
  datatype MoveStatus = Placed | Occupied | OffBoard

  /** Python list indexing on a row of three: -3 to 2 are valid, negative
      indices count from the end. */
  predicate PyValid(i: int) {
    -3 <= i < 3
  }

  function PyIndex(i: int): (r: int)
    requires PyValid(i)
    ensures 0 <= r < 3
  {
    if i < 0 then i + 3 else i
  }

  /** `result`: writes the current player's mark into the chosen square of
      the very board it is given, unless that square is taken. */
  method Result(board: array2<Cell>, action: Action) returns (status: MoveStatus)
    requires Is3x3(board)
    modifies board
    ensures status == OffBoard <==> !(PyValid(action.0) && PyValid(action.1))
    ensures status != OffBoard ==>
              var a := (PyIndex(action.0), PyIndex(action.1));
              && (status == Placed <==> old(Snapshot(board))[Idx(a)] == Empty)
              && (status == Placed ==> Snapshot(board) == Place(old(Snapshot(board)), a))
    ensures status != Placed ==> Snapshot(board) == old(Snapshot(board))
  {
    if !(PyValid(action.0) && PyValid(action.1)) {
      return OffBoard;
    }
    var i, j := PyIndex(action.0), PyIndex(action.1);
    SnapshotAt(board, i, j);
    if board[i, j] != Empty {
      return Occupied;
    }
    var p := Player(board);
    ghost var before := Snapshot(board);
    board[i, j] := p;
    assert Snapshot(board) == before[Idx((i, j)) := p];
    status := Placed;
  }

  /** `deepcopy(board)` */
  method Copy(board: array2<Cell>) returns (c: array2<Cell>)
    requires Is3x3(board)
    ensures fresh(c) && Is3x3(c)
    ensures Snapshot(c) == Snapshot(board)
  {
    c := new Cell[3, 3]((i, j) reads board requires 0 <= i < 3 && 0 <= j < 3 => board[i, j]);
  }

  // ---------------------------------------------------------------------
  // Lines and the winner

  predicate RowOf(g: Grid, r: int, c: Cell)
    requires 0 <= r < 3
  {
    g[3 * r] == c && g[3 * r + 1] == c && g[3 * r + 2] == c
  }

  predicate ColOf(g: Grid, col: int, c: Cell)
    requires 0 <= col < 3
  {
    g[col] == c && g[3 + col] == c && g[6 + col] == c
  }

  predicate DiagOf(g: Grid, c: Cell) {
    g[0] == c && g[4] == c && g[8] == c
  }

  predicate AntiOf(g: Grid, c: Cell) {
    g[2] == c && g[4] == c && g[6] == c
  }

  predicate AnyRow(g: Grid, c: Cell) {
    RowOf(g, 0, c) || RowOf(g, 1, c) || RowOf(g, 2, c)
  }

  predicate AnyCol(g: Grid, c: Cell) {
    ColOf(g, 0, c) || ColOf(g, 1, c) || ColOf(g, 2, c)
  }

  /** `c` holds one of the eight lines of the game. */
  predicate Line(g: Grid, c: Mark) {
    AnyRow(g, c) || AnyCol(g, c) || DiagOf(g, c) || AntiOf(g, c)
  }

  /** The lines `winner` actually tests for `c`: for X the third diagonal
      test reads column 1 (every `board[i][2 - 1]`) instead of the
      anti-diagonal. */
  predicate CodedLine(g: Grid, c: Mark) {
    AnyRow(g, c) || AnyCol(g, c) || DiagOf(g, c) || (if c == X then ColOf(g, 1, X) else AntiOf(g, O))
  }

  /** What `winner` ends in: a mark, `None` for a full board without a
      line, or the "Game is not over" exception. */
  datatype Outcome = Won(player: Mark) | Draw | NotOver

  /** The row loop of `winner`: the first row filled by one mark. */
  function RowScan(g: Grid, r: nat): (w: Option<Mark>)
    requires r <= 3
    decreases 3 - r
    ensures w == None <==> forall k :: r <= k < 3 ==> !RowOf(g, k, X) && !RowOf(g, k, O)
    ensures w != None ==> exists k :: r <= k < 3 && RowOf(g, k, w.value)
  {
    if r == 3 then None
    else if RowOf(g, r, X) then Some(X)
    else if RowOf(g, r, O) then Some(O)
    else RowScan(g, r + 1)
  }

  /** The column loop of `winner`. */
  function ColScan(g: Grid, col: nat): (w: Option<Mark>)
    requires col <= 3
    decreases 3 - col
    ensures w == None <==> forall k :: col <= k < 3 ==> !ColOf(g, k, X) && !ColOf(g, k, O)
    ensures w != None ==> exists k :: col <= k < 3 && ColOf(g, k, w.value)
  {
    if col == 3 then None
    else if ColOf(g, col, X) then Some(X)
    else if ColOf(g, col, O) then Some(O)
    else ColScan(g, col + 1)
  }

  /** `winner` as written: the X test of line 90 reads column 1, so X's
      anti-diagonal is never a win. */
  function Winner(g: Grid): (w: Outcome)
    ensures w.Won? <==> CodedLine(g, X) || CodedLine(g, O)
    ensures w.Won? ==> CodedLine(g, w.player)
    ensures w == Draw <==> !CodedLine(g, X) && !CodedLine(g, O) && Full(g)
    ensures w == NotOver <==> !CodedLine(g, X) && !CodedLine(g, O) && !Full(g)
  {
    match RowScan(g, 0)
    case Some(p) => Won(p)
    case None =>
      match ColScan(g, 0)
      case Some(p) => Won(p)
      case None =>
        if DiagOf(g, X) then Won(X)
        else if DiagOf(g, O) then Won(O)
        else if ColOf(g, 1, X) then Won(X)
        else if AntiOf(g, O) then Won(O)
        else if Full(g) then Draw
        else NotOver
  }

  /** `winner` with X's anti-diagonal tested on `board[i][2 - i]`. */
  function WinnerIntended(g: Grid): (w: Outcome)
    ensures w.Won? <==> Line(g, X) || Line(g, O)
    ensures w.Won? ==> Line(g, w.player)
    ensures w == Draw <==> !Line(g, X) && !Line(g, O) && Full(g)
    ensures w == NotOver <==> !Line(g, X) && !Line(g, O) && !Full(g)
  {
    match RowScan(g, 0)
    case Some(p) => Won(p)
    case None =>
      match ColScan(g, 0)
      case Some(p) => Won(p)
      case None =>
        if DiagOf(g, X) then Won(X)
        else if DiagOf(g, O) then Won(O)
        else if AntiOf(g, X) then Won(X)
        else if AntiOf(g, O) then Won(O)
        else if Full(g) then Draw
        else NotOver
  }

  /** The column-1 test for X repeats the column loop, so X wins as written
      only by a row, a column or the main diagonal. */
  lemma CodedLineOmitsXAntiDiagonal(g: Grid)
    ensures CodedLine(g, X) <==> AnyRow(g, X) || AnyCol(g, X) || DiagOf(g, X)
    ensures CodedLine(g, O) <==> Line(g, O)
  {
  }

  /** X has just completed the anti-diagonal; O holds two squares and no
      other line is complete. */
  const AntiDiagonalWin: Grid := [O, O, X, Empty, X, Empty, X, Empty, Empty]

  /** On that board `winner` as written reports that the game goes on,
      while X holds a line and the intended check declares X the winner. */
  lemma AntiDiagonalWinMissed()
    ensures Line(AntiDiagonalWin, X)
    ensures Winner(AntiDiagonalWin) == NotOver
    ensures WinnerIntended(AntiDiagonalWin) == Won(X)
  {
    assert !Full(AntiDiagonalWin) by {
      assert AntiDiagonalWin[3] == Empty;
    }
  }

  /** The two checks differ only on boards where X's anti-diagonal is the
      sole line of X. */
  lemma WinnersAgreeOtherwise(g: Grid)
    requires !AntiOf(g, X) || AnyRow(g, X) || AnyCol(g, X) || DiagOf(g, X)
    ensures Winner(g) == WinnerIntended(g)
  {
  }

  /** Which `winner` judges the game: the code as written, whose X test on
      line 90 reads column 1, or the corrected anti-diagonal test. */
  datatype Rules = AsWritten | Corrected

  /** The outcome `winner` reports under `r`. */
  function Judge(g: Grid, r: Rules): Outcome {
    if r == AsWritten then Winner(g) else WinnerIntended(g)
  }

  /** `c` holds a line that `winner` recognises under `r`. */
  predicate Wins(g: Grid, c: Mark, r: Rules) {
    if r == AsWritten then CodedLine(g, c) else Line(g, c)
  }

  /** `terminal`: the `winner` of `r` does not raise, so the board holds a
      line that `winner` recognises or is full. The search below plays by
      `AsWritten`, the code as it stands. */
  function Terminal(g: Grid, r: Rules): (b: bool)
    ensures b <==> Wins(g, X, r) || Wins(g, O, r) || Full(g)
  {
    Judge(g, r) != NotOver
  }

  /** `utility`: 1 for an X win, -1 for an O win, 0 for a draw and for a
      game that is not over. */
  function Utility(g: Grid, r: Rules): (u: int)
    ensures -1 <= u <= 1
    ensures u == 1 ==> Wins(g, X, r)
    ensures u == -1 ==> Wins(g, O, r)
    ensures u == 0 <==> !Wins(g, X, r) && !Wins(g, O, r)
  {
    match Judge(g, r)
    case Won(p) => if p == X then 1 else -1
    case _ => 0
  }

  /** A game over as written is over under the corrected rules too: the
      slip only hides wins. */
  lemma AsWrittenEndsNoLater(g: Grid)
    ensures Terminal(g, AsWritten) ==> Terminal(g, Corrected)
    ensures Utility(g, AsWritten) != 0 ==> Utility(g, AsWritten) == Utility(g, Corrected)
  {
  }

  /** On the board that exposes the anti-diagonal slip the game as written
      goes on with utility 0, while X has in fact won. */
  lemma AsWrittenMissesAntiDiagonal()
    ensures !Terminal(AntiDiagonalWin, AsWritten) && Terminal(AntiDiagonalWin, Corrected)
    ensures Utility(AntiDiagonalWin, AsWritten) == 0 && Utility(AntiDiagonalWin, Corrected) == 1
  {
    AntiDiagonalWinMissed();
  }

  // ---------------------------------------------------------------------
  // Minimax

  /** `max` over a set of utilities for X, `min` for O, starting from the
      infinite sentinel; decided by membership since utilities are -1, 0
      or 1. */
  function Extreme(p: Mark, vals: set<int>): int {
    if p == X then
      (if 1 in vals then 1 else if 0 in vals then 0 else if -1 in vals then -1 else NegInf)
    else
      (if -1 in vals then -1 else if 0 in vals then 0 else if 1 in vals then 1 else PosInf)
  }

  /** One step of the running `max` (X) or `min` (O). */
  function Better(p: Mark, v: int, w: int): int {
    if p == X then (if v < w then w else v) else (if w < v then w else v)
  }

  /** Over utilities, `Extreme` is an attained maximum for X and an attained
      minimum for O. */
  lemma ExtremeIsOptimum(p: Mark, vals: set<int>)
    requires vals != {}
    requires forall v :: v in vals ==> -1 <= v <= 1
    ensures Extreme(p, vals) in vals
    ensures p == X ==> forall v :: v in vals ==> v <= Extreme(p, vals)
    ensures p == O ==> forall v :: v in vals ==> Extreme(p, vals) <= v
  {
    if !(1 in vals || 0 in vals || -1 in vals) {
      assert forall w :: w !in vals;
    }
  }

  /** Folding one more utility into the running extremum. */
  lemma ExtremeAdd(p: Mark, vals: set<int>, w: int)
    requires forall v :: v in vals ==> -1 <= v <= 1
    requires -1 <= w <= 1
    ensures Extreme(p, vals + {w}) == Better(p, Extreme(p, vals), w)
  {
  }

  /** Every move from an open square leads to a board with fewer open
      squares: the measure of the minimax recursion. */
  lemma MovesShrink(g: Grid)
    ensures forall a :: a in EmptyCells(g) ==> EmptyCount(Place(g, a)) < EmptyCount(g)
  {
    forall a | a in EmptyCells(g)
      ensures EmptyCount(Place(g, a)) < EmptyCount(g)
    {
      PlaceShrinks(g, a);
    }
  }

  /** The value of each child reached from `g` by a move in `s`, with `q`
      to move next. */
  function ChildValues(g: Grid, q: Mark, s: set<Action>, r: Rules): (vals: set<int>)
    requires s <= EmptyCells(g)
    decreases EmptyCount(g), 0
    ensures forall v :: v in vals ==> -1 <= v <= 1
    ensures s == {} <==> vals == {}
  {
    MovesShrink(g);
    var vals := set a | a in s :: Value(Place(g, a), q, r);
    assert s != {} ==> vals != {} by {
      if s != {} {
        var a :| a in s;
        assert Value(Place(g, a), q, r) in vals;
      }
    }
    vals
  }

  lemma ChildValuesHas(g: Grid, q: Mark, s: set<Action>, a: Action, r: Rules)
    requires s <= EmptyCells(g) && a in s
    ensures Value(Place(g, a), q, r) in ChildValues(g, q, s, r)
  {
  }

  /** `minimaxValue(board, p)` when `terminal` and `utility` follow `r`:
      the utility of a finished board, otherwise the best child value for
      `p` over every open square. The mark written is the board's own
      turn; `p` only selects max or min. The methods below compute it for
      `AsWritten`; `Corrected` gives the value of the game under its usual
      rules. */
  function Value(g: Grid, p: Mark, r: Rules): (v: int)
    decreases EmptyCount(g), 1
    ensures -1 <= v <= 1
  {
    if Terminal(g, r) then Utility(g, r)
    else
      OpenSquares(g);
      var vals := ChildValues(g, Opp(p), EmptyCells(g), r);
      ExtremeIsOptimum(p, vals);
      Extreme(p, vals)
  }

  /** Off a finished board the value is the optimum over the children: some
      move attains it and no move beats it. */
  lemma ValueIsOptimum(g: Grid, p: Mark, r: Rules)
    requires !Terminal(g, r)
    ensures EmptyCells(g) != {}
    ensures exists a :: a in EmptyCells(g) && Value(g, p, r) == Value(Place(g, a), Opp(p), r)
    ensures p == X ==> forall a :: a in EmptyCells(g) ==> Value(Place(g, a), Opp(p), r) <= Value(g, p, r)
    ensures p == O ==> forall a :: a in EmptyCells(g) ==> Value(g, p, r) <= Value(Place(g, a), Opp(p), r)
  {
    OpenSquares(g);
    var vals := ChildValues(g, Opp(p), EmptyCells(g), r);
    ExtremeIsOptimum(p, vals);
    forall a | a in EmptyCells(g)
      ensures Value(Place(g, a), Opp(p), r) in vals
    {
      ChildValuesHas(g, Opp(p), EmptyCells(g), a, r);
    }
  }

  /** One more move adds its child's value. */
  lemma ChildValuesAdd(g: Grid, q: Mark, s: set<Action>, a: Action, r: Rules)
    requires s + {a} <= EmptyCells(g)
    ensures ChildValues(g, q, s + {a}, r) == ChildValues(g, q, s, r) + {Value(Place(g, a), q, r)}
  {
  }

  /** Unfolding `Value` off a finished board. */
  lemma ValueUnfold(g: Grid, p: Mark, r: Rules)
    requires !Terminal(g, r)
    ensures Value(g, p, r) == Extreme(p, ChildValues(g, Opp(p), EmptyCells(g), r))
  {
  }

  /** `O O X / X X O / X O _` with X to move: X already holds the
      anti-diagonal, which the code as written does not see, so the search
      plays the last square on to a full board with no recognised line. */
  const LateAntiDiagonal: Grid := [O, O, X, X, X, O, X, O, Empty]

  /** On that board both have made four moves, so X moves next and takes
      the last square. */
  lemma LateAntiDiagonalMoves()
    ensures Turn(LateAntiDiagonal) == X
    ensures EmptyCells(LateAntiDiagonal) == {(2, 2)}
    ensures Place(LateAntiDiagonal, (2, 2)) == [O, O, X, X, X, O, X, O, X]
  {
    var g := LateAntiDiagonal;
    assert CountOf([O], X) == 0 && CountOf([O], O) == 1;
    assert [O, O][..1] == [O];
    assert CountOf([O, O], X) == 0 && CountOf([O, O], O) == 2;
    assert [O, O, X][..2] == [O, O];
    assert CountOf([O, O, X], X) == 1 && CountOf([O, O, X], O) == 2;
    assert [O, O, X, X][..3] == [O, O, X];
    assert CountOf([O, O, X, X], X) == 2 && CountOf([O, O, X, X], O) == 2;
    assert [O, O, X, X, X][..4] == [O, O, X, X];
    assert CountOf([O, O, X, X, X], X) == 3 && CountOf([O, O, X, X, X], O) == 2;
    assert [O, O, X, X, X, O][..5] == [O, O, X, X, X];
    assert CountOf([O, O, X, X, X, O], X) == 3 && CountOf([O, O, X, X, X, O], O) == 3;
    assert [O, O, X, X, X, O, X][..6] == [O, O, X, X, X, O];
    assert CountOf([O, O, X, X, X, O, X], X) == 4 && CountOf([O, O, X, X, X, O, X], O) == 3;
    assert [O, O, X, X, X, O, X, O][..7] == [O, O, X, X, X, O, X];
    assert CountOf([O, O, X, X, X, O, X, O], X) == 4 && CountOf([O, O, X, X, X, O, X, O], O) == 4;
    assert g[..8] == [O, O, X, X, X, O, X, O];
    assert EmptyCells(g) == {(2, 2)} by {
      forall a | a in AllCells && a != (2, 2)
        ensures g[Idx(a)] != Empty
      {
      }
    }
  }

  /** On that board the search as written scores a draw for either side,
      where the corrected rules score X's win. */
  lemma AsWrittenValueMissesWin(p: Mark)
    ensures Value(LateAntiDiagonal, p, AsWritten) == 0
    ensures Value(LateAntiDiagonal, p, Corrected) == 1
  {
    var g := LateAntiDiagonal;
    LateAntiDiagonalMoves();
    assert Line(g, X) && !Full(g);
    var child := Place(g, (2, 2));
    assert Full(child);
    assert !CodedLine(child, X) && !CodedLine(child, O);
    ValueUnfold(g, p, AsWritten);
    assert ChildValues(g, Opp(p), {(2, 2)}, AsWritten) == {Value(child, Opp(p), AsWritten)} by {
      ChildValuesAdd(g, Opp(p), {}, (2, 2), AsWritten);
    }
  }

  /** `result(deepcopy(board), action)` for an open square: a fresh board
      with the move made, the original untouched. */
  method ChildBoard(board: array2<Cell>, a: Action) returns (child: array2<Cell>)
    requires Is3x3(board) && a in EmptyCells(Snapshot(board))
    ensures fresh(child) && Is3x3(child)
    ensures Snapshot(child) == Place(Snapshot(board), a)
  {
    child := Copy(board);
    assert PyValid(a.0) && PyValid(a.1) && (PyIndex(a.0), PyIndex(a.1)) == a;
    var status := Result(child, a);
  }

  /** `minimaxValue`: the utility of a finished board, otherwise the loop
      over the actions. */
  method MinimaxValue(board: array2<Cell>, p: Mark) returns (v: int)
    requires Is3x3(board)
    ensures v == Value(Snapshot(board), p, AsWritten)
    decreases EmptyCount(Snapshot(board)), 2
  {
    var g := Snapshot(board);
    if Terminal(g, AsWritten) {
      assert Value(g, p, AsWritten) == Utility(g, AsWritten);
      return Utility(g, AsWritten);
    }
    v := BestChildValue(board, p);
    ValueUnfold(g, p, AsWritten);
  }

  /** Moving one element from the unscored to the scored part of a set. */
  lemma ShiftOne(all: set<Action>, todo: set<Action>, done: set<Action>, a: Action)
    requires todo <= all && done == all - todo && a in todo
    ensures done + {a} <= all
    ensures todo - {a} <= all && done + {a} == all - (todo - {a})
  {
  }

  /** The loop of `minimaxValue`: the running `max` (X) or `min` (O) of the
      children's values. */
  method BestChildValue(board: array2<Cell>, p: Mark) returns (v: int)
    requires Is3x3(board)
    ensures v == Extreme(p, ChildValues(Snapshot(board), Opp(p), EmptyCells(Snapshot(board)), AsWritten))
    decreases EmptyCount(Snapshot(board)), 1
  {
    ghost var g := Snapshot(board);
    v := if p == X then NegInf else PosInf;
    var acts := Actions(board);
    ghost var all := acts;
    ghost var done: set<Action> := {};
    while acts != {}
      invariant acts <= all && done == all - acts
      invariant v == Extreme(p, ChildValues(g, Opp(p), done, AsWritten))
      decreases |acts|
    {
      var a :| a in acts;
      var w := ChildValue(board, a, Opp(p));
      ShiftOne(all, acts, done, a);
      ChildValuesAdd(g, Opp(p), done, a, AsWritten);
      ExtremeAdd(p, ChildValues(g, Opp(p), done, AsWritten), w);
      v := Better(p, v, w);
      acts := acts - {a};
      done := done + {a};
    }
    assert done == all;
  }

  /** `minimaxValue(result(deepcopy(board), action), q)` */
  method ChildValue(board: array2<Cell>, a: Action, q: Mark) returns (w: int)
    requires Is3x3(board) && a in EmptyCells(Snapshot(board))
    ensures w == Value(Place(Snapshot(board), a), q, AsWritten)
    decreases EmptyCount(Snapshot(board)), 0
  {
    var child := ChildBoard(board, a);
    PlaceShrinks(Snapshot(board), a);
    w := MinimaxValue(child, q);
  }

  /** No move of `s` leads to a child better for `p` than `best`: no
      larger value for X, no smaller one for O. */
  predicate Dominates(g: Grid, q: Mark, p: Mark, s: set<Action>, best: int, r: Rules)
    requires s <= EmptyCells(g)
  {
    forall b :: b in s ==> if p == X then Value(Place(g, b), q, r) <= best else best <= Value(Place(g, b), q, r)
  }

  /** The test of `minimax` for replacing the suggested move: a strictly
      larger value for X, a strictly smaller one for O. */
  predicate Improves(p: Mark, value: int, best: int) {
    (p == X && value > best) || (p == O && value < best)
  }

  /** The extremum over a set of moves dominates each of them. */
  lemma ExtremeDominates(g: Grid, q: Mark, p: Mark, s: set<Action>, r: Rules)
    requires s <= EmptyCells(g)
    ensures Dominates(g, q, p, s, Extreme(p, ChildValues(g, q, s, r)), r)
  {
    var vals := ChildValues(g, q, s, r);
    if s != {} {
      ExtremeIsOptimum(p, vals);
      forall b | b in s
        ensures Value(Place(g, b), q, r) in vals
      {
        ChildValuesHas(g, q, s, b, r);
      }
    }
  }

  /** What `minimax` knows after scoring the moves of `done`: the suggested
      value is the running extremum (still the sentinel when nothing was
      scored), and a move was suggested exactly when something was scored,
      one of them, whose child attains that value. */
  predicate Suggests(g: Grid, q: Mark, p: Mark, done: set<Action>, move: Option<Action>, best: int, r: Rules)
    requires done <= EmptyCells(g)
  {
    && best == Extreme(p, ChildValues(g, q, done, r))
    && (move == None <==> done == {})
    && (move != None ==> move.value in done && Value(Place(g, move.value), q, r) == best)
  }

  /** The suggested move and value after `minimax` scores move `a` at
      `value`: replaced on an improvement, kept otherwise. */
  function Consider(p: Mark, a: Action, value: int, move: Option<Action>, best: int): (Option<Action>, int) {
    if Improves(p, value, best) then (Some(a), value) else (move, best)
  }

  /** Scoring one more move and applying the replacement test keeps
      `Suggests`. */
  lemma SuggestsStep(g: Grid, q: Mark, p: Mark, done: set<Action>, move: Option<Action>, best: int, a: Action, r: Rules)
    requires done + {a} <= EmptyCells(g) && Suggests(g, q, p, done, move, best, r)
    ensures Suggests(g, q, p, done + {a},
                     Consider(p, a, Value(Place(g, a), q, r), move, best).0,
                     Consider(p, a, Value(Place(g, a), q, r), move, best).1, r)
  {
    ChildValuesAdd(g, q, done, a, r);
    ExtremeAdd(p, ChildValues(g, q, done, r), Value(Place(g, a), q, r));
  }

  /** `minimax`: the first action, in iteration order, whose child value is
      strictly better than every earlier one, values taken with `winner` as
      written; `None` when there is no open square. */
  method Minimax(board: array2<Cell>) returns (move: Option<Action>)
    requires Is3x3(board)
    ensures move == None <==> EmptyCells(Snapshot(board)) == {}
    ensures move == None <==> Full(Snapshot(board))
    ensures move != None ==>
              && move.value in EmptyCells(Snapshot(board))
              && Dominates(Snapshot(board), Opp(Turn(Snapshot(board))), Turn(Snapshot(board)), EmptyCells(Snapshot(board)),
                           Value(Place(Snapshot(board), move.value), Opp(Turn(Snapshot(board))), AsWritten), AsWritten)
  {
    var currPlayer := Player(board);
    var nextPlayer := if currPlayer == X then O else X;
    var acts := Actions(board);
    var suggestedMoveValue;
    move, suggestedMoveValue := SuggestMove(board, acts, currPlayer, nextPlayer);
    ExtremeDominates(Snapshot(board), nextPlayer, currPlayer, acts, AsWritten);
    OpenSquares(Snapshot(board));
  }

  /** The loop of `minimax` over `actions(board)`, keeping the suggested
      move and its value. */
  method SuggestMove(board: array2<Cell>, acts: set<Action>, currPlayer: Mark, nextPlayer: Mark)
    returns (move: Option<Action>, suggestedMoveValue: int)
    requires Is3x3(board) && acts == EmptyCells(Snapshot(board))
    ensures Suggests(Snapshot(board), nextPlayer, currPlayer, acts, move, suggestedMoveValue, AsWritten)
  {
    ghost var g := Snapshot(board);
    move := None;
    suggestedMoveValue := if currPlayer == X then NegInf else PosInf;
    var todo := acts;
    ghost var done: set<Action> := {};
    while todo != {}
      invariant todo <= acts && done == acts - todo
      invariant Suggests(g, nextPlayer, currPlayer, done, move, suggestedMoveValue, AsWritten)
      decreases |todo|
    {
      var a :| a in todo;
      var mmValue := ChildValue(board, a, nextPlayer);
      ShiftOne(acts, todo, done, a);
      SuggestsStep(g, nextPlayer, currPlayer, done, move, suggestedMoveValue, a, AsWritten);
      move, suggestedMoveValue := Consider(currPlayer, a, mmValue, move, suggestedMoveValue).0,
                                  Consider(currPlayer, a, mmValue, move, suggestedMoveValue).1;
      todo := todo - {a};
      done := done + {a};
    }
    assert done == acts;
  }
}
