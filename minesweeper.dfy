/**
 * The rules of the 10×10 minesweeper game of MinesweeperGame.swift. The board
 * is a `seq<seq<CellState>>` field updated cell by cell; the mine set, which
 * the game draws at random, is handed in as a set of fifteen distinct cell
 * indices `y * 10 + x`.
 */
module Minesweeper {
  const Rows := 10
  const Cols := 10
  const TotalMines := 15

  datatype CellState = Hidden | Empty | Flagged | Mine | Exploded | Revealed(count: int)

  datatype Coordinate = Coordinate(x: int, y: int)

  datatype PlayerAction = Test | Flag

  type Board = seq<seq<CellState>>

  predicate InBounds(c: Coordinate) {
    0 <= c.x < Cols && 0 <= c.y < Rows
  }

  /** The index under which the game stores a mine at `c`. */
  function Index(c: Coordinate): int {
    c.y * Cols + c.x
  }

  /** The cell stored under index `i`. */
  function CoordOf(i: int): Coordinate {
    Coordinate(i % Cols, i / Cols)
  }

  lemma IndexRoundTrip(c: Coordinate)
    requires InBounds(c)
    ensures 0 <= Index(c) < Rows * Cols && CoordOf(Index(c)) == c
  {
  }

  lemma CoordOfRoundTrip(i: int)
    requires 0 <= i < Rows * Cols
    ensures InBounds(CoordOf(i)) && Index(CoordOf(i)) == i
  {
  }

  /** Fifteen distinct cells of the board, as `placeMines` leaves them. */
  predicate ValidMines(mines: set<int>) {
    |mines| == TotalMines && forall i :: i in mines ==> 0 <= i < Rows * Cols
  }

  predicate WellFormed(b: Board) {
    |b| == Rows && forall y :: 0 <= y < Rows ==> |b[y]| == Cols
  }

  function Cell(b: Board, c: Coordinate): CellState
    requires WellFormed(b) && InBounds(c)
  {
    b[c.y][c.x]
  }

  /** `board[c.y][c.x] = v`. */
  function SetCell(b: Board, c: Coordinate, v: CellState): (r: Board)
    requires WellFormed(b) && InBounds(c)
    ensures WellFormed(r) && Cell(r, c) == v
    ensures forall d :: InBounds(d) && d != c ==> Cell(r, d) == Cell(b, d)
  {
    b[c.y := b[c.y][c.x := v]]
  }

  /** The board `init` and `reset` build: every cell hidden. */
  function FreshBoard(): (b: Board)
    ensures WellFormed(b) && forall c :: InBounds(c) ==> Cell(b, c) == Hidden
  {
    seq(Rows, _ => seq(Cols, _ => Hidden))
  }

  // ---------------------------------------------------------------------------
  // Neighbours
  // ---------------------------------------------------------------------------

  /** The nine offsets in the order the `dy`/`dx` loops visit them: offset `k`
      is `dy == k / 3 - 1`, `dx == k % 3 - 1`, and offset 4 is the cell itself. */
  function Neighbour(c: Coordinate, k: nat): Coordinate
    requires k < 9
  {
    var dy := if k < 3 then -1 else if k < 6 then 0 else 1;
    var dx := if k == 0 || k == 3 || k == 6 then -1 else if k == 1 || k == 4 || k == 7 then 0 else 1;
    Coordinate(c.x + dx, c.y + dy)
  }

  /** Offset `(dy, dx)` is offset number `3 * (dy + 1) + (dx + 1)`. */
  lemma OffsetOf(c: Coordinate, dy: int, dx: int)
    requires -1 <= dy <= 1 && -1 <= dx <= 1
    ensures 0 <= 3 * (dy + 1) + (dx + 1) < 9
    ensures Neighbour(c, 3 * (dy + 1) + (dx + 1)) == Coordinate(c.x + dx, c.y + dy)
    ensures 3 * (dy + 1) + (dx + 1) == 4 <==> dy == 0 && dx == 0
  {
  }

  /** Offset `k` names a real neighbour on the board. */
  predicate IsNeighbour(c: Coordinate, k: nat)
    requires k < 9
  {
    k != 4 && InBounds(Neighbour(c, k))
  }

  /** The mines among the first `k` offsets of `c`. */
  function MinesAround(mines: set<int>, c: Coordinate, k: nat): (n: nat)
    requires k <= 9
    ensures n <= k && (k > 4 ==> n < k)
  {
    if k == 0 then 0
    else MinesAround(mines, c, k - 1) + (if IsNeighbour(c, k - 1) && Index(Neighbour(c, k - 1)) in mines then 1 else 0)
  }

  /** The number a revealed cell shows. */
  function AdjacentMines(mines: set<int>, c: Coordinate): (n: nat)
    ensures n <= 8
  {
    MinesAround(mines, c, 9)
  }

  /** The count looks only at on-board neighbours: two mine sets that agree
      there give the same count. */
  lemma {:induction false} MinesAroundLocal(m1: set<int>, m2: set<int>, c: Coordinate, k: nat)
    requires k <= 9
    requires forall j :: 0 <= j < k && IsNeighbour(c, j) ==> (Index(Neighbour(c, j)) in m1 <==> Index(Neighbour(c, j)) in m2)
    ensures MinesAround(m1, c, k) == MinesAround(m2, c, k)
  {
    if k > 0 {
      MinesAroundLocal(m1, m2, c, k - 1);
    }
  }

  /** A cell never counts itself. */
  lemma AdjacentMinesIgnoresSelf(mines: set<int>, c: Coordinate)
    requires InBounds(c)
    ensures AdjacentMines(mines + {Index(c)}, c) == AdjacentMines(mines - {Index(c)}, c)
  {
    forall j | 0 <= j < 9 && IsNeighbour(c, j)
      ensures Index(Neighbour(c, j)) != Index(c)
    {
      IndexRoundTrip(c);
      IndexRoundTrip(Neighbour(c, j));
    }
    MinesAroundLocal(mines + {Index(c)}, mines - {Index(c)}, c, 9);
  }

  /** A count of zero means no on-board neighbour holds a mine. */
  lemma {:induction false} NoMinesAround(mines: set<int>, c: Coordinate, k: nat, j: nat)
    requires j < k <= 9 && MinesAround(mines, c, k) == 0 && IsNeighbour(c, j)
    ensures Index(Neighbour(c, j)) !in mines
  {
    if j < k - 1 {
      NoMinesAround(mines, c, k - 1, j);
    }
  }

  /** The right-hand neighbour of a cell in the last column is off the
      board, though its index is that of the first cell of the next row: a
      mine there is not counted. */
  lemma EdgeDoesNotWrap(mines: set<int>, c: Coordinate)
    requires InBounds(c) && c.x == Cols - 1
    ensures AdjacentMines(mines + {Index(c) + 1}, c) == AdjacentMines(mines - {Index(c) + 1}, c)
  {
    forall j | 0 <= j < 9 && IsNeighbour(c, j)
      ensures Index(Neighbour(c, j)) != Index(c) + 1
    {
    }
    MinesAroundLocal(mines + {Index(c) + 1}, mines - {Index(c) + 1}, c, 9);
  }

  // ---------------------------------------------------------------------------
  // What a board may show
  // ---------------------------------------------------------------------------

  /** What testing a safe cell shows: its count, or a blank when it is zero. */
  function RevealedState(mines: set<int>, c: Coordinate): (s: CellState)
    ensures s == Empty <==> AdjacentMines(mines, c) == 0
    ensures s.Revealed? ==> 0 < s.count == AdjacentMines(mines, c) <= 8
    ensures s == Empty || s.Revealed?
  {
    var n := AdjacentMines(mines, c);
    if n > 0 then Revealed(n) else Empty
  }

  /** A cell agrees with the mines: only a mine explodes, only a safe cell is
      opened and then shows its count, and `.mine` is never stored. */
  predicate CellAgrees(s: CellState, mines: set<int>, c: Coordinate) {
    match s
    case Hidden => true
    case Flagged => true
    case Mine => false
    case Exploded => Index(c) in mines
    case Empty => Index(c) !in mines && s == RevealedState(mines, c)
    case Revealed(_) => Index(c) !in mines && s == RevealedState(mines, c)
  }

  ghost predicate Consistent(b: Board, mines: set<int>) {
    WellFormed(b) && forall c :: InBounds(c) ==> CellAgrees(Cell(b, c), mines, c)
  }

  ghost predicate NoExplosion(b: Board)
    requires WellFormed(b)
  {
    forall c :: InBounds(c) ==> Cell(b, c) != Exploded
  }

  /** `b1` differs from `b0` only in cells that were hidden, hold no mine and
      now show what testing them shows. */
  ghost predicate RevealsOnly(b0: Board, b1: Board, mines: set<int>) {
    WellFormed(b0) && WellFormed(b1) &&
    forall c :: InBounds(c) ==>
      Cell(b1, c) == Cell(b0, c) ||
      (Cell(b0, c) == Hidden && Index(c) !in mines && Cell(b1, c) == RevealedState(mines, c))
  }

  lemma RevealsOnlyTransitive(b0: Board, b1: Board, b2: Board, mines: set<int>)
    requires RevealsOnly(b0, b1, mines) && RevealsOnly(b1, b2, mines)
    ensures RevealsOnly(b0, b2, mines)
  {
  }

  /** Opening cells keeps a board consistent and unexploded. */
  lemma RevealsOnlyKeepsConsistent(b0: Board, b1: Board, mines: set<int>)
    requires Consistent(b0, mines) && RevealsOnly(b0, b1, mines)
    ensures Consistent(b1, mines)
    ensures NoExplosion(b0) ==> NoExplosion(b1)
  {
    forall c | InBounds(c)
      ensures CellAgrees(Cell(b1, c), mines, c)
    {
      assert CellAgrees(Cell(b0, c), mines, c);
    }
  }

  /** No neighbour of `e` is still hidden on `b` (flagged ones stay flagged). */
  ghost predicate NeighboursOpen(b: Board, e: Coordinate)
    requires WellFormed(b)
  {
    forall k :: 0 <= k < 9 && IsNeighbour(e, k) ==> Cell(b, Neighbour(e, k)) != Hidden
  }

  /** Every cell the flood turned blank has no hidden neighbour left. */
  ghost predicate FloodComplete(b0: Board, b1: Board)
    requires WellFormed(b0) && WellFormed(b1)
  {
    forall e :: InBounds(e) && Cell(b0, e) == Hidden && Cell(b1, e) == Empty ==> NeighboursOpen(b1, e)
  }

  /** Two distinct cells that touch, side by side or corner to corner. */
  predicate Adjacent(a: Coordinate, b: Coordinate) {
    a != b && -1 <= b.x - a.x <= 1 && -1 <= b.y - a.y <= 1
  }

  /** `c` touches one of the first `n` cells of `order` that shows a blank
      on `b`. */
  ghost predicate TouchesBlank(b: Board, order: seq<Coordinate>, n: nat, c: Coordinate)
    requires WellFormed(b) && n <= |order|
  {
    exists j :: 0 <= j < n && InBounds(order[j]) && Cell(b, order[j]) == Empty && Adjacent(order[j], c)
  }

  /** Cell `order[k]` is on the board and is the start or touches an earlier
      cell of `order` that came out blank. */
  ghost predicate ReachedAt(b: Board, start: Coordinate, order: seq<Coordinate>, k: nat)
    requires WellFormed(b) && k < |order|
  {
    InBounds(order[k]) && (order[k] == start || TouchesBlank(b, order, k, order[k]))
  }

  /** `order` lists cells in the order a flood from `start` opened them: each
      is the start itself or touches an earlier one that came out blank. */
  ghost predicate Spread(b: Board, start: Coordinate, order: seq<Coordinate>) {
    WellFormed(b) && forall k :: 0 <= k < |order| ==> ReachedAt(b, start, order, k)
  }

  /** The cells where `b1` differs from `b0` are exactly those of `order`. */
  ghost predicate OpenedExactly(b0: Board, b1: Board, order: seq<Coordinate>)
    requires WellFormed(b0) && WellFormed(b1)
  {
    forall c :: InBounds(c) ==> (Cell(b1, c) != Cell(b0, c) <==> c in order)
  }

  /** Every cell `b1` opened was reached from `start` through cells that came
      out blank: nothing was opened beyond the flood's reach. */
  ghost predicate ReachedFrom(b0: Board, b1: Board, start: Coordinate)
    requires WellFormed(b0) && WellFormed(b1)
  {
    exists order :: Spread(b1, start, order) && OpenedExactly(b0, b1, order)
  }

  /** What `floodReveal` from `start` leaves: only hidden safe cells opened,
      the start opened when it was hidden and safe, no cell it blanked left
      with a hidden neighbour, and nothing opened beyond the blanks' reach. */
  ghost predicate Flooded(b0: Board, b1: Board, mines: set<int>, start: Coordinate) {
    RevealsOnly(b0, b1, mines) && InBounds(start) &&
    (Cell(b0, start) == Hidden && Index(start) !in mines ==> Cell(b1, start) == RevealedState(mines, start)) &&
    FloodComplete(b0, b1) && ReachedFrom(b0, b1, start)
  }

  /** What a safe test leaves: the flood from the tested cell, which shows its
      count; a nonzero count opens that cell alone. */
  ghost predicate SafeTest(b0: Board, b1: Board, mines: set<int>, c: Coordinate)
    requires InBounds(c)
  {
    Flooded(b0, b1, mines, c) && Cell(b1, c) == RevealedState(mines, c) &&
    (AdjacentMines(mines, c) > 0 ==> b1 == SetCell(b0, c, RevealedState(mines, c)))
  }

  /** Two boards with the same cells are the same board. */
  lemma SameCells(b1: Board, b2: Board)
    requires WellFormed(b1) && WellFormed(b2)
    requires forall c :: InBounds(c) ==> Cell(b1, c) == Cell(b2, c)
    ensures b1 == b2
  {
    forall y | 0 <= y < Rows
      ensures b1[y] == b2[y]
    {
      forall x | 0 <= x < Cols
        ensures b1[y][x] == b2[y][x]
      {
        assert Cell(b1, Coordinate(x, y)) == Cell(b2, Coordinate(x, y));
      }
    }
  }

  /** A cell that changed was hidden and safe and now shows its count. */
  lemma ChangedCell(b0: Board, b1: Board, mines: set<int>, c: Coordinate)
    requires RevealsOnly(b0, b1, mines) && InBounds(c) && Cell(b1, c) != Cell(b0, c)
    ensures Cell(b0, c) == Hidden && Index(c) !in mines && Cell(b1, c) == RevealedState(mines, c)
  {
  }

  /** A completed flood leaves no hidden cell next to a cell it blanked. */
  lemma BlankOpensNeighbour(b0: Board, b1: Board, e: Coordinate, c: Coordinate)
    requires WellFormed(b0) && WellFormed(b1) && FloodComplete(b0, b1)
    requires InBounds(e) && InBounds(c) && Adjacent(e, c)
    requires Cell(b0, e) == Hidden && Cell(b1, e) == Empty
    ensures Cell(b1, c) != Hidden
  {
    OffsetOf(e, c.y - e.y, c.x - e.x);
    assert NeighboursOpen(b1, e);
  }

  /** A cell some flood reached is opened by every board that meets the
      flood's contract from the same start. */
  lemma {:induction false} ReachedCellOpens(b0: Board, b1: Board, b2: Board, mines: set<int>, start: Coordinate,
                                            order: seq<Coordinate>, k: nat)
    requires RevealsOnly(b0, b2, mines) && FloodComplete(b0, b2) && InBounds(start)
    requires Cell(b0, start) == Hidden && Index(start) !in mines ==> Cell(b2, start) == RevealedState(mines, start)
    requires RevealsOnly(b0, b1, mines) && Spread(b1, start, order) && OpenedExactly(b0, b1, order)
    requires k < |order|
    ensures InBounds(order[k]) && Cell(b2, order[k]) != Cell(b0, order[k])
    decreases k
  {
    var c := order[k];
    assert c in order && ReachedAt(b1, start, order, k);
    ChangedCell(b0, b1, mines, c);
    if c != start {
      var j :| 0 <= j < k && InBounds(order[j]) && Cell(b1, order[j]) == Empty && Adjacent(order[j], c);
      ReachedCellOpens(b0, b1, b2, mines, start, order, j);
      var e := order[j];
      assert e in order;
      ChangedCell(b0, b1, mines, e);
      ChangedCell(b0, b2, mines, e);
      BlankOpensNeighbour(b0, b2, e, c);
    }
  }

  /** The flood's contract fixes its outcome: two boards that both meet it
      from the same start on the same board are the same board. */
  lemma FloodDetermined(b0: Board, b1: Board, b2: Board, mines: set<int>, start: Coordinate)
    requires Flooded(b0, b1, mines, start) && Flooded(b0, b2, mines, start)
    ensures b1 == b2
  {
    var o1 :| Spread(b1, start, o1) && OpenedExactly(b0, b1, o1);
    var o2 :| Spread(b2, start, o2) && OpenedExactly(b0, b2, o2);
    forall c | InBounds(c)
      ensures Cell(b1, c) == Cell(b2, c)
    {
      if Cell(b1, c) != Cell(b0, c) {
        var k :| 0 <= k < |o1| && o1[k] == c;
        ReachedCellOpens(b0, b1, b2, mines, start, o1, k);
      } else if Cell(b2, c) != Cell(b0, c) {
        var k :| 0 <= k < |o2| && o2[k] == c;
        ReachedCellOpens(b0, b2, b1, mines, start, o2, k);
      }
    }
    SameCells(b1, b2);
  }

  /** A safe test's outcome is fixed by the board before it, and so is
      whether it wins the game. */
  lemma SafeTestDetermined(b0: Board, b1: Board, b2: Board, mines: set<int>, c: Coordinate)
    requires InBounds(c) && SafeTest(b0, b1, mines, c) && SafeTest(b0, b2, mines, c)
    ensures b1 == b2
    ensures |CoveredCells(b1)| == TotalMines <==> |CoveredCells(b2)| == TotalMines
  {
    FloodDetermined(b0, b1, b2, mines, c);
  }

  /** Testing a hidden safe cell with a nonzero count opens it alone, which
      is the flood from that cell. */
  lemma SingleOpen(b0: Board, mines: set<int>, c: Coordinate)
    requires WellFormed(b0) && InBounds(c) && Cell(b0, c) == Hidden && Index(c) !in mines
    requires AdjacentMines(mines, c) > 0
    ensures SafeTest(b0, SetCell(b0, c, RevealedState(mines, c)), mines, c)
  {
    var b1 := SetCell(b0, c, RevealedState(mines, c));
    assert Spread(b1, c, [c]);
    assert OpenedExactly(b0, b1, [c]);
  }

  // ---------------------------------------------------------------------------
  // Winning
  // ---------------------------------------------------------------------------

  /** Hidden and flagged cells are the ones still covered. */
  predicate Covered(s: CellState) {
    s == Hidden || s == Flagged
  }

  /** The indices below `n` whose cells are covered. */
  function CoveredBelow(b: Board, n: int): set<int>
    requires WellFormed(b) && n <= Rows * Cols
  {
    set i | 0 <= i < n && Covered(Cell(b, CoordOf(i)))
  }

  /** The covered cells of the board, by index. */
  function CoveredCells(b: Board): set<int>
    requires WellFormed(b)
  {
    CoveredBelow(b, Rows * Cols)
  }

  lemma CoveredBelowStep(b: Board, n: int)
    requires WellFormed(b) && 0 <= n < Rows * Cols
    ensures |CoveredBelow(b, n + 1)| == |CoveredBelow(b, n)| + (if Covered(Cell(b, CoordOf(n))) then 1 else 0)
  {
    if Covered(Cell(b, CoordOf(n))) {
      assert CoveredBelow(b, n + 1) == CoveredBelow(b, n) + {n};
    } else {
      assert CoveredBelow(b, n + 1) == CoveredBelow(b, n);
    }
  }

  /** Cell `(x, y)` is the one counted at index `y * 10 + x`. */
  lemma CountStep(b: Board, x: int, y: int)
    requires WellFormed(b) && 0 <= x < Cols && 0 <= y < Rows
    ensures 0 <= y * Cols + x < Rows * Cols
    ensures |CoveredBelow(b, y * Cols + x + 1)| ==
      |CoveredBelow(b, y * Cols + x)| + (if b[y][x] == Hidden || b[y][x] == Flagged then 1 else 0)
  {
    IndexRoundTrip(Coordinate(x, y));
    CoveredBelowStep(b, y * Cols + x);
  }

  lemma SubsetOfSameSize(a: set<int>, b: set<int>)
    requires a <= b && |a| == |b|
    ensures a == b
  {
    assert |b - a| == |b| - |a| == 0;
    assert b == a + (b - a);
  }

  /** With no explosion every mine is still covered. */
  lemma MinesAreCovered(b: Board, mines: set<int>)
    requires Consistent(b, mines) && ValidMines(mines) && NoExplosion(b)
    ensures mines <= CoveredCells(b)
  {
    forall i | i in mines
      ensures i in CoveredCells(b)
    {
      CoordOfRoundTrip(i);
      assert CellAgrees(Cell(b, CoordOf(i)), mines, CoordOf(i));
    }
  }

  /** With no explosion, fifteen covered cells means exactly that every safe
      cell is open: the covered cells are then the mines. */
  lemma WinMeansAllSafeCellsOpen(b: Board, mines: set<int>)
    requires Consistent(b, mines) && ValidMines(mines) && NoExplosion(b)
    ensures |CoveredCells(b)| == TotalMines <==>
      forall c :: InBounds(c) && Index(c) !in mines ==> !Covered(Cell(b, c))
  {
    MinesAreCovered(b, mines);
    if |CoveredCells(b)| == TotalMines {
      CoveredAreMines(b, mines);
    }
    if forall c :: InBounds(c) && Index(c) !in mines ==> !Covered(Cell(b, c)) {
      SafeOpenMeansFifteenCovered(b, mines);
    }
  }

  lemma CoveredAreMines(b: Board, mines: set<int>)
    requires WellFormed(b) && ValidMines(mines) && mines <= CoveredCells(b)
    requires |CoveredCells(b)| == TotalMines
    ensures forall c :: InBounds(c) && Index(c) !in mines ==> !Covered(Cell(b, c))
  {
    SubsetOfSameSize(mines, CoveredCells(b));
    forall c | InBounds(c) && Index(c) !in mines
      ensures !Covered(Cell(b, c))
    {
      IndexRoundTrip(c);
    }
  }

  lemma SafeOpenMeansFifteenCovered(b: Board, mines: set<int>)
    requires WellFormed(b) && ValidMines(mines) && mines <= CoveredCells(b)
    requires forall c :: InBounds(c) && Index(c) !in mines ==> !Covered(Cell(b, c))
    ensures |CoveredCells(b)| == TotalMines
  {
    forall i | i in CoveredCells(b)
      ensures i in mines
    {
      CoordOfRoundTrip(i);
    }
    assert CoveredCells(b) == mines;
  }

  /** Flagging: a hidden cell becomes flagged, a flagged one hidden, anything
      else stays. */
  function ToggleFlag(s: CellState): (r: CellState)
    ensures (s == Hidden || s == Flagged) <==> r != s
    ensures Covered(r) <==> Covered(s)
  {
    if s == Hidden then Flagged else if s == Flagged then Hidden else s
  }

  /** The answer to a flag move on a cell in state `s`. */
  function FlagMessage(s: CellState): string {
    if s == Hidden then "Flag added."
    else if s == Flagged then "Flag removed."
    else "Cannot flag a revealed cell."
  }

  lemma FlagTwiceRestores(s: CellState)
    ensures ToggleFlag(ToggleFlag(s)) == s
  {
  }

  /** Sets whose members all lie below `n` have at most `n` members. */
  lemma {:induction false} BoundedSetSize(s: set<int>, n: nat)
    requires forall i :: i in s ==> 0 <= i < n
    ensures |s| <= n
  {
    if n == 0 {
      assert forall i :: i !in s;
      assert s == {};
    } else {
      BoundedSetSize(s - {n - 1}, n - 1);
    }
  }

  // ---------------------------------------------------------------------------
  // The flood's work queue
  // ---------------------------------------------------------------------------

  /** The neighbours among the first `k` offsets of `c` that the flood queues:
      on the board, not yet visited and still hidden, in loop order. */
  function Enqueued(b: Board, c: Coordinate, visited: set<int>, k: nat): (q: seq<Coordinate>)
    requires WellFormed(b) && k <= 9
  {
    if k == 0 then []
    else
      var d := Neighbour(c, k - 1);
      Enqueued(b, c, visited, k - 1) + (if IsNeighbour(c, k - 1) && Index(d) !in visited && Cell(b, d) == Hidden then [d] else [])
  }

  /** One turn of the counting loop at offset `(dy, dx)`. */
  lemma MinesAroundNext(mines: set<int>, c: Coordinate, dy: int, dx: int)
    requires -1 <= dy <= 1 && -1 <= dx <= 1
    ensures 0 <= 3 * (dy + 1) + (dx + 1) < 9
    ensures MinesAround(mines, c, 3 * (dy + 1) + (dx + 1) + 1) ==
      MinesAround(mines, c, 3 * (dy + 1) + (dx + 1)) +
      (if !(dy == 0 && dx == 0) && 0 <= c.y + dy < Rows && 0 <= c.x + dx < Cols &&
          Index(Coordinate(c.x + dx, c.y + dy)) in mines then 1 else 0)
  {
    OffsetOf(c, dy, dx);
  }

  /** A turn of the queueing loop that queues the neighbour at `(dy, dx)`. */
  lemma EnqueuedGrows(b: Board, c: Coordinate, visited: set<int>, queue: seq<Coordinate>, k: nat, dy: int, dx: int)
    requires WellFormed(b) && -1 <= dy <= 1 && -1 <= dx <= 1 && !(dy == 0 && dx == 0)
    requires k == 3 * (dy + 1) + (dx + 1)
    requires 0 <= c.y + dy < Rows && 0 <= c.x + dx < Cols
    requires (c.y + dy) * Cols + (c.x + dx) !in visited && b[c.y + dy][c.x + dx] == Hidden
    ensures k < 9
    ensures queue + Enqueued(b, c, visited, k + 1) == queue + Enqueued(b, c, visited, k) + [Coordinate(c.x + dx, c.y + dy)]
  {
    OffsetOf(c, dy, dx);
    var q := Enqueued(b, c, visited, k);
    assert queue + (q + [Coordinate(c.x + dx, c.y + dy)]) == queue + q + [Coordinate(c.x + dx, c.y + dy)];
  }

  /** A turn of the queueing loop that queues nothing: the cell itself, a
      position off the board, or a neighbour visited or open. */
  lemma EnqueuedSame(b: Board, c: Coordinate, visited: set<int>, k: nat, dy: int, dx: int)
    requires WellFormed(b) && -1 <= dy <= 1 && -1 <= dx <= 1 && k == 3 * (dy + 1) + (dx + 1)
    requires (dy == 0 && dx == 0) || !(0 <= c.y + dy < Rows && 0 <= c.x + dx < Cols) ||
      (c.y + dy) * Cols + (c.x + dx) in visited || b[c.y + dy][c.x + dx] != Hidden
    ensures k < 9
    ensures Enqueued(b, c, visited, k + 1) == Enqueued(b, c, visited, k)
  {
    OffsetOf(c, dy, dx);
    var q := Enqueued(b, c, visited, k);
    assert q + [] == q;
  }

  /** The flood only queues coordinates on the board. */
  lemma {:induction false} EnqueuedInBounds(b: Board, c: Coordinate, visited: set<int>, k: nat)
    requires WellFormed(b) && k <= 9
    ensures forall d :: d in Enqueued(b, c, visited, k) ==> InBounds(d)
  {
    if k > 0 {
      EnqueuedInBounds(b, c, visited, k - 1);
    }
  }

  /** Every neighbour is already visited, already open, or queued. */
  lemma {:induction false} EnqueuedCovers(b: Board, c: Coordinate, visited: set<int>, k: nat)
    requires WellFormed(b) && k <= 9
    ensures forall j :: 0 <= j < k && IsNeighbour(c, j) ==>
      Index(Neighbour(c, j)) in visited || Cell(b, Neighbour(c, j)) != Hidden || Neighbour(c, j) in Enqueued(b, c, visited, k)
  {
    if k > 0 {
      EnqueuedCovers(b, c, visited, k - 1);
    }
  }

  /** The flood queues only cells that touch the one it just blanked. */
  lemma {:induction false} EnqueuedAdjacent(b: Board, c: Coordinate, visited: set<int>, k: nat)
    requires WellFormed(b) && k <= 9
    ensures forall d :: d in Enqueued(b, c, visited, k) ==> Adjacent(c, d)
  {
    if k > 0 {
      EnqueuedAdjacent(b, c, visited, k - 1);
    }
  }

  /** Work still to do: a cell the flood has blanked has each neighbour open
      or waiting in `queue`. */
  ghost predicate Pending(b0: Board, b: Board, queue: seq<Coordinate>)
    requires WellFormed(b0) && WellFormed(b)
  {
    forall e :: InBounds(e) && Cell(b0, e) == Hidden && Cell(b, e) == Empty ==>
      forall k :: 0 <= k < 9 && IsNeighbour(e, k) ==> Cell(b, Neighbour(e, k)) != Hidden || Neighbour(e, k) in queue
  }

  /** The invariant of the flood loop started at `start` on `b0`: only safe
      hidden cells have been opened, queued coordinates are on the board,
      visited cells are open, the start cell is open or still queued unless
      it holds a mine, and every blanked cell has its hidden neighbours
      queued. */
  ghost predicate FloodState(b0: Board, b: Board, mines: set<int>, start: Coordinate,
                             queue: seq<Coordinate>, visited: set<int>)
  {
    RevealsOnly(b0, b, mines) && InBounds(start) &&
    (forall q :: q in queue ==> InBounds(q)) &&
    (forall i :: i in visited ==> 0 <= i < Rows * Cols && Cell(b, CoordOf(i)) != Hidden) &&
    (Index(start) !in mines ==> Cell(b, start) != Hidden || start in queue) &&
    Pending(b0, b, queue)
  }

  /** Dropping a queued cell that is open or holds a mine loses nothing: no
      blank cell has a mine next to it. */
  lemma SkipKeepsPending(b0: Board, b: Board, mines: set<int>, current: Coordinate, rest: seq<Coordinate>)
    requires RevealsOnly(b0, b, mines) && InBounds(current)
    requires Pending(b0, b, [current] + rest)
    requires Cell(b, current) != Hidden || Index(current) in mines
    ensures Pending(b0, b, rest)
  {
    forall e, k | InBounds(e) && Cell(b0, e) == Hidden && Cell(b, e) == Empty && 0 <= k < 9 && IsNeighbour(e, k)
      ensures Cell(b, Neighbour(e, k)) != Hidden || Neighbour(e, k) in rest
    {
      if Neighbour(e, k) == current && Cell(b, current) == Hidden {
        NoMinesAround(mines, e, 9, k);
      }
    }
  }

  /** Opening the dequeued cell, and queueing its neighbours when it comes
      out blank, keeps the work accounted for. */
  lemma OpenKeepsPending(b0: Board, b: Board, current: Coordinate, v: CellState,
                         rest: seq<Coordinate>, extra: seq<Coordinate>)
    requires WellFormed(b0) && WellFormed(b) && InBounds(current)
    requires Pending(b0, b, [current] + rest) && Cell(b, current) == Hidden && v != Hidden
    requires v == Empty ==> forall k :: 0 <= k < 9 && IsNeighbour(current, k) ==>
      Cell(SetCell(b, current, v), Neighbour(current, k)) != Hidden || Neighbour(current, k) in rest + extra
    ensures Pending(b0, SetCell(b, current, v), rest + extra)
  {
    var b1 := SetCell(b, current, v);
    forall e, k | InBounds(e) && Cell(b0, e) == Hidden && Cell(b1, e) == Empty && 0 <= k < 9 && IsNeighbour(e, k)
      ensures Cell(b1, Neighbour(e, k)) != Hidden || Neighbour(e, k) in rest + extra
    {
      if e != current {
        assert Cell(b, Neighbour(e, k)) != Hidden || Neighbour(e, k) in [current] + rest;
      }
    }
  }

  /** The flood's record of what it opened, for the loop started at `start`
      on `b0`: `order` lists the opened cells as `Spread` says, they are
      exactly the cells that changed, and every queued cell is the start or
      touches a blank of `order`. */
  ghost predicate Reached(b0: Board, b: Board, start: Coordinate, order: seq<Coordinate>, queue: seq<Coordinate>) {
    WellFormed(b0) && WellFormed(b) && Spread(b, start, order) && OpenedExactly(b0, b, order) &&
    forall q :: q in queue ==> q == start || TouchesBlank(b, order, |order|, q)
  }

  /** Dropping a queued cell keeps the record. */
  lemma SkipKeepsReached(b0: Board, b: Board, start: Coordinate, order: seq<Coordinate>,
                         current: Coordinate, rest: seq<Coordinate>)
    requires Reached(b0, b, start, order, [current] + rest)
    ensures Reached(b0, b, start, order, rest)
  {
    forall q | q in rest
      ensures q == start || TouchesBlank(b, order, |order|, q)
    {
      assert q in [current] + rest;
    }
  }

  /** Opening a cell not yet in `order` keeps every blank `order` had. */
  lemma TouchesBlankStep(b: Board, v: CellState, order: seq<Coordinate>, current: Coordinate,
                         n: nat, m: nat, c: Coordinate)
    requires WellFormed(b) && InBounds(current) && current !in order
    requires n <= m <= |order| && TouchesBlank(b, order, n, c)
    ensures TouchesBlank(SetCell(b, current, v), order + [current], m, c)
  {
    var j :| 0 <= j < n && InBounds(order[j]) && Cell(b, order[j]) == Empty && Adjacent(order[j], c);
    assert order[j] in order;
    assert (order + [current])[j] == order[j];
  }

  /** Opening the dequeued cell extends the record by that cell. */
  lemma OrderStep(b0: Board, b: Board, mines: set<int>, start: Coordinate, current: Coordinate,
                  order: seq<Coordinate>, rest: seq<Coordinate>, queue: seq<Coordinate>)
    requires RevealsOnly(b0, b, mines) && InBounds(current) && Cell(b, current) == Hidden
    requires Reached(b0, b, start, order, [current] + rest)
    requires forall q :: q in queue ==> q in rest || (RevealedState(mines, current) == Empty && Adjacent(current, q))
    ensures Reached(b0, SetCell(b, current, RevealedState(mines, current)), start, order + [current], queue)
  {
    var v := RevealedState(mines, current);
    var b1 := SetCell(b, current, v);
    var order1 := order + [current];
    assert Cell(b, current) == Cell(b0, current);
    assert current !in order;
    forall k | 0 <= k < |order1|
      ensures ReachedAt(b1, start, order1, k)
    {
      if k < |order| {
        assert order1[k] == order[k] && ReachedAt(b, start, order, k);
        if order[k] != start {
          TouchesBlankStep(b, v, order, current, k, k, order[k]);
        }
      } else {
        assert current in [current] + rest;
        if current != start {
          TouchesBlankStep(b, v, order, current, |order|, |order|, current);
        }
      }
    }
    assert Spread(b1, start, order1);
    forall c | InBounds(c)
      ensures Cell(b1, c) != Cell(b0, c) <==> c in order1
    {
      if c != current {
        assert Cell(b1, c) == Cell(b, c);
      }
    }
    forall q | q in queue
      ensures q == start || TouchesBlank(b1, order1, |order1|, q)
    {
      if q in rest {
        assert q in [current] + rest;
        if q != start {
          TouchesBlankStep(b, v, order, current, |order|, |order|, q);
          var j :| 0 <= j < |order| && InBounds(order1[j]) && Cell(b1, order1[j]) == Empty && Adjacent(order1[j], q);
        }
      } else {
        assert order1[|order|] == current;
      }
    }
  }

  // ---------------------------------------------------------------------------
  // The game
  // ---------------------------------------------------------------------------

  class MinesweeperGame {
    var board: Board
    var isGameOver: bool
    var isWon: bool
    /** The mine cells, stored as `y * 10 + x`. */
    var mines: set<int>

    ghost predicate Valid()
      reads this
    {
      Consistent(board, mines) && ValidMines(mines) &&
      (isWon ==> isGameOver) && (!isGameOver ==> NoExplosion(board))
    }

    /** `init`, with the mine set `placeMines` would draw given as `mineSet`. */
    constructor (mineSet: set<int>)
      requires ValidMines(mineSet)
      ensures Valid() && board == FreshBoard() && !isGameOver && !isWon && mines == mineSet
    {
      board := FreshBoard();
      isGameOver, isWon := false, false;
      mines := mineSet;
    }

    /** `reset`, with the newly drawn mine set given as `mineSet`. */
    method Reset(mineSet: set<int>)
      requires ValidMines(mineSet)
      modifies this
      ensures Valid() && board == FreshBoard() && !isGameOver && !isWon && mines == mineSet
    {
      board := FreshBoard();
      isGameOver := false;
      isWon := false;
      mines := mineSet;
    }

    predicate IsMine(c: Coordinate)
      reads this
    {
      Index(c) in mines
    }

    /** `getAdjacentMines`: the two offset loops, skipping the cell itself and
        every neighbour off the board. */
    method GetAdjacentMines(c: Coordinate) returns (count: int)
      ensures count == AdjacentMines(mines, c)
    {
      count := 0;
      for dy := -1 to 2
        invariant count == MinesAround(mines, c, 3 * (dy + 1))
      {
        for dx := -1 to 2
          invariant count == MinesAround(mines, c, 3 * (dy + 1) + (dx + 1))
        {
          MinesAroundNext(mines, c, dy, dx);
          if dy == 0 && dx == 0 {
            continue;
          }
          var ny := c.y + dy;
          var nx := c.x + dx;
          if ny >= 0 && ny < Rows && nx >= 0 && nx < Cols {
            if IsMine(Coordinate(nx, ny)) {
              count := count + 1;
            }
          }
        }
      }
    }

    /** The neighbour scan of `floodReveal` around a blank cell. */
    method EnqueueNeighbours(current: Coordinate, visited: set<int>, queue: seq<Coordinate>)
      returns (queue': seq<Coordinate>)
      requires WellFormed(board)
      ensures queue' == queue + Enqueued(board, current, visited, 9)
    {
      queue' := queue;
      ghost var k := 0;
      for dy := -1 to 2
        invariant k == 3 * (dy + 1) && queue' == queue + Enqueued(board, current, visited, k)
      {
        for dx := -1 to 2
          invariant k == 3 * (dy + 1) + (dx + 1) && queue' == queue + Enqueued(board, current, visited, k)
        {
          if dy == 0 && dx == 0 {
            EnqueuedSame(board, current, visited, k, dy, dx);
            k := k + 1;
            continue;
          }
          var ny := current.y + dy;
          var nx := current.x + dx;
          if ny >= 0 && ny < Rows && nx >= 0 && nx < Cols {
            var neighbor := Coordinate(nx, ny);
            if neighbor.y * Cols + neighbor.x !in visited && board[ny][nx] == Hidden {
              EnqueuedGrows(board, current, visited, queue, k, dy, dx);
              queue' := queue' + [neighbor];
            } else {
              EnqueuedSame(board, current, visited, k, dy, dx);
            }
          } else {
            EnqueuedSame(board, current, visited, k, dy, dx);
          }
          k := k + 1;
        }
      }
    }

    /** `floodReveal`: breadth-first from `start`, opening every hidden safe
        cell it reaches and spreading on from the blank ones. */
    method FloodReveal(start: Coordinate)
      requires Valid() && InBounds(start)
      modifies this`board
      ensures Valid()
      ensures RevealsOnly(old(board), board, mines)
      ensures Cell(old(board), start) == Hidden && Index(start) !in mines ==>
        Cell(board, start) == RevealedState(mines, start)
      ensures FloodComplete(old(board), board)
      ensures ReachedFrom(old(board), board, start)
    {
      var queue := [start];
      var visited: set<int> := {};
      ghost var order: seq<Coordinate> := [];
      while |queue| > 0
        invariant FloodState(old(board), board, mines, start, queue, visited)
        invariant Reached(old(board), board, start, order, queue)
        decreases Rows * Cols - |visited|, |queue|
      {
        BoundedSetSize(visited, Rows * Cols);
        visited, queue, order := Visit(old(board), start, visited, queue, order);
        BoundedSetSize(visited, Rows * Cols);
      }
      assert Spread(board, start, order) && OpenedExactly(old(board), board, order);
      RevealsOnlyKeepsConsistent(old(board), board, mines);
    }

    /** One turn of the flood loop: dequeue a cell, skip it when it is
        visited, open or a mine, and open it otherwise. */
    method Visit(ghost b0: Board, ghost start: Coordinate, visited: set<int>, queue: seq<Coordinate>,
                 ghost order: seq<Coordinate>)
      returns (visited': set<int>, queue': seq<Coordinate>, ghost order': seq<Coordinate>)
      requires FloodState(b0, board, mines, start, queue, visited) && |queue| > 0
      requires Reached(b0, board, start, order, queue)
      modifies this`board
      ensures FloodState(b0, board, mines, start, queue', visited')
      ensures Reached(b0, board, start, order', queue')
      ensures (visited' == visited && |queue'| < |queue|) || |visited'| > |visited|
    {
      var current := queue[0];
      assert current in queue;
      var rest := queue[1..];
      assert queue == [current] + rest;
      var index := current.y * Cols + current.x;
      IndexRoundTrip(current);
      if index in visited || board[current.y][current.x] != Hidden || IsMine(current) {
        SkipKeepsPending(b0, board, mines, current, rest);
        SkipKeepsReached(b0, board, start, order, current, rest);
        assert Cell(board, current) != Hidden || Index(current) in mines;
        visited', queue', order' := visited, rest, order;
      } else {
        ghost var before := board;
        visited', queue' := OpenCell(b0, current, visited, rest);
        assert Cell(board, current) != Hidden;
        OrderStep(b0, before, mines, start, current, order, rest, queue');
        order' := order + [current];
      }
    }

    /** The body of the flood loop for a dequeued cell that is hidden, safe
        and not yet visited: mark it visited, show its count, and queue its
        neighbours when the count is zero. */
    method OpenCell(ghost b0: Board, current: Coordinate, visited: set<int>, rest: seq<Coordinate>)
      returns (visited': set<int>, queue: seq<Coordinate>)
      requires RevealsOnly(b0, board, mines) && InBounds(current)
      requires Cell(board, current) == Hidden && Index(current) !in mines
      requires Pending(b0, board, [current] + rest)
      requires Index(current) !in visited
      requires forall i :: i in visited ==> 0 <= i < Rows * Cols && Cell(board, CoordOf(i)) != Hidden
      requires forall q :: q in rest ==> InBounds(q)
      modifies this`board
      ensures board == SetCell(old(board), current, RevealedState(mines, current))
      ensures RevealsOnly(b0, board, mines)
      ensures visited' == visited + {Index(current)}
      ensures forall i :: i in visited' ==> 0 <= i < Rows * Cols && Cell(board, CoordOf(i)) != Hidden
      ensures forall q :: q in rest ==> q in queue
      ensures forall q :: q in queue ==> InBounds(q)
      ensures forall q :: q in queue ==> q in rest || (RevealedState(mines, current) == Empty && Adjacent(current, q))
      ensures Pending(b0, board, queue)
    {
      ghost var before := board;
      visited' := visited + {Index(current)};
      var adjacentMines := GetAdjacentMines(current);
      var extra: seq<Coordinate> := [];
      queue := rest;
      if adjacentMines > 0 {
        board := board[current.y := board[current.y][current.x := Revealed(adjacentMines)]];
      } else {
        board := board[current.y := board[current.y][current.x := Empty]];
        queue := EnqueueNeighbours(current, visited', queue);
        extra := Enqueued(board, current, visited', 9);
        EnqueuedCovers(board, current, visited', 9);
        EnqueuedInBounds(board, current, visited', 9);
        EnqueuedAdjacent(board, current, visited', 9);
      }
      assert queue == rest + extra;
      FloodStep(b0, before, board, current, rest, extra, visited, mines);
    }

    /** `checkWinCondition`: fifteen hidden or flagged cells end the game as
        won. */
    method CheckWinCondition()
      requires Valid()
      modifies this`isWon, this`isGameOver
      ensures Valid()
      ensures isWon == (old(isWon) || |CoveredCells(board)| == TotalMines)
      ensures isGameOver == (old(isGameOver) || |CoveredCells(board)| == TotalMines)
    {
      var hiddenOrFlaggedCount := CountHiddenOrFlagged();
      if hiddenOrFlaggedCount == TotalMines {
        isWon := true;
        isGameOver := true;
      }
    }

    /** The counting loops of `checkWinCondition`. */
    method CountHiddenOrFlagged() returns (count: int)
      requires WellFormed(board)
      ensures count == |CoveredCells(board)|
    {
      count := 0;
      for y := 0 to Rows
        invariant count == |CoveredBelow(board, y * Cols)|
      {
        for x := 0 to Cols
          invariant count == |CoveredBelow(board, y * Cols + x)|
        {
          CountStep(board, x, y);
          if board[y][x] == Hidden || board[y][x] == Flagged {
            count := count + 1;
          }
        }
      }
    }

    /** `applyAction`: one move, and the message the game answers with. */
    method ApplyAction(action: PlayerAction, coordinate: Coordinate) returns (message: string)
      requires Valid() && InBounds(coordinate)
      modifies this
      ensures Valid() && mines == old(mines)
      // game over is absorbing
      ensures old(isGameOver) ==>
        message == "Game is already over." && board == old(board) && isGameOver && isWon == old(isWon)
      ensures !old(isGameOver) && action == Flag ==>
        board == SetCell(old(board), coordinate, ToggleFlag(Cell(old(board), coordinate))) &&
        isGameOver == old(isGameOver) && isWon == old(isWon) &&
        message == FlagMessage(Cell(old(board), coordinate))
      ensures !old(isGameOver) && action == Test && Cell(old(board), coordinate) != Hidden ==>
        board == old(board) && isGameOver == old(isGameOver) && isWon == old(isWon) &&
        message == (if Cell(old(board), coordinate) == Flagged then "Cannot test a flagged cell."
                    else "Cell is already revealed.")
      ensures !old(isGameOver) && action == Test && Cell(old(board), coordinate) == Hidden && Index(coordinate) in mines ==>
        board == SetCell(old(board), coordinate, Exploded) && isGameOver && !isWon &&
        message == "BOOM! You hit a mine."
      ensures !old(isGameOver) && action == Test && Cell(old(board), coordinate) == Hidden && Index(coordinate) !in mines ==>
        SafeTest(old(board), board, mines, coordinate) &&
        isWon == (|CoveredCells(board)| == TotalMines) && isGameOver == isWon &&
        message == (if isWon then "Congratulations! You won!" else "Safe. Continuing...")
    {
      if isGameOver {
        return "Game is already over.";
      }
      var currentState := board[coordinate.y][coordinate.x];
      match action
      case Test =>
        if currentState == Flagged {
          return "Cannot test a flagged cell.";
        }
        if currentState != Hidden {
          return "Cell is already revealed.";
        }
        if IsMine(coordinate) {
          board := board[coordinate.y := board[coordinate.y][coordinate.x := Exploded]];
          isGameOver := true;
          return "BOOM! You hit a mine.";
        } else {
          var adjacentCounts := GetAdjacentMines(coordinate);
          if adjacentCounts > 0 {
            board := board[coordinate.y := board[coordinate.y][coordinate.x := Revealed(adjacentCounts)]];
            assert RevealsOnly(old(board), board, mines);
            RevealsOnlyKeepsConsistent(old(board), board, mines);
            SingleOpen(old(board), mines, coordinate);
          } else {
            FloodReveal(coordinate);
          }
          CheckWinCondition();
          if isWon {
            return "Congratulations! You won!";
          }
          return "Safe. Continuing...";
        }
      case Flag =>
        if currentState == Hidden {
          board := board[coordinate.y := board[coordinate.y][coordinate.x := Flagged]];
          return "Flag added.";
        } else if currentState == Flagged {
          board := board[coordinate.y := board[coordinate.y][coordinate.x := Hidden]];
          return "Flag removed.";
        } else {
          assert board[coordinate.y][coordinate.x := currentState] == board[coordinate.y];
          assert SetCell(board, coordinate, currentState) == board;
          return "Cannot flag a revealed cell.";
        }
    }
  }

  /** One opened cell in the flood loop keeps its invariants. */
  lemma FloodStep(b0: Board, before: Board, after: Board, current: Coordinate,
                  rest: seq<Coordinate>, extra: seq<Coordinate>, visited: set<int>, mines: set<int>)
    requires RevealsOnly(b0, before, mines) && InBounds(current)
    requires Cell(before, current) == Hidden && Index(current) !in mines
    requires after == SetCell(before, current, RevealedState(mines, current))
    requires Pending(b0, before, [current] + rest)
    requires forall i :: i in visited ==> 0 <= i < Rows * Cols && Cell(before, CoordOf(i)) != Hidden
    requires RevealedState(mines, current) == Empty ==> forall j :: 0 <= j < 9 && IsNeighbour(current, j) ==>
      Index(Neighbour(current, j)) in visited + {Index(current)} || Cell(after, Neighbour(current, j)) != Hidden || Neighbour(current, j) in extra
    ensures RevealsOnly(b0, after, mines)
    ensures forall i :: i in visited + {Index(current)} ==> 0 <= i < Rows * Cols && Cell(after, CoordOf(i)) != Hidden
    ensures Pending(b0, after, rest + extra)
  {
    assert RevealsOnly(before, after, mines);
    RevealsOnlyTransitive(b0, before, after, mines);
    VisitedStayOpen(before, after, current, RevealedState(mines, current), visited);
    if RevealedState(mines, current) == Empty {
      QueuedOrOpen(after, current, visited + {Index(current)}, rest + extra);
    }
    OpenKeepsPending(b0, before, current, RevealedState(mines, current), rest, extra);
  }

  /** Visited cells stay open when one more cell is opened and visited. */
  lemma VisitedStayOpen(before: Board, after: Board, current: Coordinate, v: CellState, visited: set<int>)
    requires WellFormed(before) && InBounds(current) && v != Hidden
    requires after == SetCell(before, current, v)
    requires forall i :: i in visited ==> 0 <= i < Rows * Cols && Cell(before, CoordOf(i)) != Hidden
    ensures forall i :: i in visited + {Index(current)} ==> 0 <= i < Rows * Cols && Cell(after, CoordOf(i)) != Hidden
  {
    IndexRoundTrip(current);
  }

  /** A visited neighbour is open, so each neighbour is open or queued. */
  lemma QueuedOrOpen(b: Board, current: Coordinate, visited: set<int>, queue: seq<Coordinate>)
    requires WellFormed(b)
    requires forall i :: i in visited ==> 0 <= i < Rows * Cols && Cell(b, CoordOf(i)) != Hidden
    requires forall j :: 0 <= j < 9 && IsNeighbour(current, j) ==>
      Index(Neighbour(current, j)) in visited || Cell(b, Neighbour(current, j)) != Hidden || Neighbour(current, j) in queue
    ensures forall j :: 0 <= j < 9 && IsNeighbour(current, j) ==>
      Cell(b, Neighbour(current, j)) != Hidden || Neighbour(current, j) in queue
  {
    forall j | 0 <= j < 9 && IsNeighbour(current, j)
      ensures Cell(b, Neighbour(current, j)) != Hidden || Neighbour(current, j) in queue
    {
      IndexRoundTrip(Neighbour(current, j));
    }
  }
}
