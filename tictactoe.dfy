/** A Tic-Tac-Toe move (`TicTacToe` entity): the board after the move, whose
    turn is next, and whether the move belongs to the current game. */
module TicTacToeDomain {
  import opened Wrappers

  const BOARD_LENGTH: nat := 3

  /** A cell holds a mark ("X" or "O" in a real game) or `null`. */
  type Cell = Option<string>

  /** The `String[][]` board; rows may have any length. */
  type Board = seq<seq<Cell>>

  datatype Move = Move(id: Option<int>, xNext: bool, board: Board, isCurrentGame: bool)

  /** The 3 x 3 board of `null`s. */
  function EmptyBoard(): (b: Board)
    ensures |b| == BOARD_LENGTH
    ensures forall i :: 0 <= i < |b| ==> b[i] == [None, None, None]
  {
    [[None, None, None], [None, None, None], [None, None, None]]
  }

  /** What `TicTacToe.tictactoeBuilder().build()` yields: X to move, an empty
      board, part of the current game. */
  function DefaultMove(): (m: Move)
    ensures m.id == None && m.xNext && m.board == EmptyBoard() && m.isCurrentGame
  {
    Move(None, true, EmptyBoard(), true)
  }

  /** `removeFromCurrentGame`: clears the current-game flag and nothing else. */
  function RemoveFromCurrentGame(m: Move): (r: Move)
    ensures !r.isCurrentGame
    ensures r.(isCurrentGame := m.isCurrentGame) == m
  {
    m.(isCurrentGame := false)
  }

  /** `copy`: turn and board are kept, the id is left unset and the
      current-game flag takes its default. */
  function Copy(m: Move): (r: Move)
    ensures r.id == None && r.xNext == m.xNext && r.board == m.board && r.isCurrentGame
    ensures r == DefaultMove().(xNext := m.xNext, board := m.board)
  {
    Move(None, m.xNext, m.board, true)
  }

  // ------------------------------------------------------------ getWinner

  /** Reading `board[i][j]` does not throw. */
  predicate InBounds(b: Board, i: nat, j: nat)
  {
    i < |b| && j < |b[i]|
  }

  /** Every cell `getWinner` may read exists. */
  predicate Readable3(b: Board)
  {
    |b| >= BOARD_LENGTH && forall i :: 0 <= i < BOARD_LENGTH ==> |b[i]| >= BOARD_LENGTH
  }

  /** The outcome of one comparison `v.equals(board[i][j])`. */
  datatype Probe = Holds | Fails | Throws

  function Same(b: Board, v: string, i: nat, j: nat): (r: Probe)
    ensures r == Holds <==> InBounds(b, i, j) && b[i][j] == Some(v)
    ensures r == Throws <==> !InBounds(b, i, j)
  {
    if !InBounds(b, i, j) then Throws else if b[i][j] == Some(v) then Holds else Fails
  }

  /** `v.equals(board[i1][j1]) && v.equals(board[i2][j2])`, with `&&`
      skipping the second comparison when the first fails. */
  function Pair(b: Board, v: string, i1: nat, j1: nat, i2: nat, j2: nat): Probe
  {
    match Same(b, v, i1, j1)
    case Holds => Same(b, v, i2, j2)
    case Fails => Fails
    case Throws => Throws
  }

  /** The four directional tests of cell `(i, j)` holding `v`, in the order
      they are tried: down, right, down-right, up-right. A test whose index
      guard is false is not evaluated. */
  function Probes(b: Board, v: string, i: nat, j: nat): seq<Probe>
  {
    [ if i < BOARD_LENGTH - 2 then Pair(b, v, i + 1, j, i + 2, j) else Fails,
      if j < BOARD_LENGTH - 2 then Pair(b, v, i, j + 1, i, j + 2) else Fails,
      if i < BOARD_LENGTH - 2 && j < BOARD_LENGTH - 2 then Pair(b, v, i + 1, j + 1, i + 2, j + 2) else Fails,
      if i >= 2 && j < BOARD_LENGTH - 2 then Pair(b, v, i - 1, j + 1, i - 2, j + 2) else Fails ]
  }

  /** What the scan does at one cell. */
  datatype Step = Found(mark: string) | Next | Crash

  /** Test `t` is the first one that does not fail, and its outcome is `p`. */
  predicate FirstIs(ps: seq<Probe>, p: Probe, t: int)
  {
    0 <= t < |ps| && ps[t] == p && forall u :: 0 <= u < t ==> ps[u] == Fails
  }

  /** The first test that does not fail decides: a line found gives the
      mark, an exception propagates. */
  function Decide(v: string, ps: seq<Probe>): (r: Step)
    ensures r.Found? ==> r.mark == v
    ensures r.Found? <==> exists t :: FirstIs(ps, Holds, t)
    ensures r == Crash <==> exists t :: FirstIs(ps, Throws, t)
    ensures r == Next <==> forall t :: 0 <= t < |ps| ==> ps[t] == Fails
  {
    if ps == [] then Next
    else match ps[0]
      case Holds =>
        assert FirstIs(ps, Holds, 0);
        assert forall t :: FirstIs(ps, Throws, t) ==> t == 0;
        Found(v)
      case Throws =>
        assert FirstIs(ps, Throws, 0);
        assert forall t :: FirstIs(ps, Holds, t) ==> t == 0;
        Crash
      case Fails =>
        var r := Decide(v, ps[1..]);
        assert forall t :: 1 <= t < |ps| ==> ps[t] == ps[1..][t - 1];
        assert forall p, t :: FirstIs(ps[1..], p, t) ==> FirstIs(ps, p, t + 1);
        assert forall p, t :: FirstIs(ps, p, t) && p != Fails ==> t >= 1 && FirstIs(ps[1..], p, t - 1);
        r
  }

  function CheckCell(b: Board, i: nat, j: nat): Step
  {
    if !InBounds(b, i, j) then Crash
    else match b[i][j]
      case None => Next
      case Some(v) => Decide(v, Probes(b, v, i, j))
  }

  datatype WinnerScan = Winner(mark: string) | NoWinner | OutOfBounds

  /** What the scan does at cell number `k`. */
  function CellStep(b: Board, k: nat): Step
  {
    CheckCell(b, k / BOARD_LENGTH, k % BOARD_LENGTH)
  }

  /** The row-major scan from cell number `k` (row `k / 3`, column `k % 3`). */
  function ScanFrom(b: Board, k: nat): WinnerScan
    requires k <= BOARD_LENGTH * BOARD_LENGTH
    decreases BOARD_LENGTH * BOARD_LENGTH - k
  {
    if k == BOARD_LENGTH * BOARD_LENGTH then NoWinner
    else match CellStep(b, k)
      case Found(v) => Winner(v)
      case Crash => OutOfBounds
      case Next => ScanFrom(b, k + 1)
  }

  /** `getWinner`: the mark of the first line found, `null` (NoWinner) if
      none; OutOfBounds stands for the exception a read past the end of a
      short board throws. */
  function GetWinner(b: Board): WinnerScan
  {
    ScanFrom(b, 0)
  }

  /** Cell `t` of line `l`: rows 0-2, columns 3-5, the diagonal 6 and the
      anti-diagonal 7, which runs up from the bottom-left corner. */
  function LineCell(l: nat, t: nat): (nat, nat)
    requires l < 8 && t < 3
  {
    if l < 3 then (l, t)
    else if l < 6 then (t, l - 3)
    else if l == 6 then (t, t)
    else (2 - t, t)
  }

  /** The three cells of line `l` exist and hold `v`. */
  predicate OnLine(b: Board, l: nat, v: string)
    requires l < 8
  {
    forall t :: 0 <= t < 3 ==>
      InBounds(b, LineCell(l, t).0, LineCell(l, t).1) && b[LineCell(l, t).0][LineCell(l, t).1] == Some(v)
  }

  /** Some row, column or diagonal consists of three `v`s. */
  predicate HasLine(b: Board, v: string)
  {
    exists l :: 0 <= l < 8 && OnLine(b, l, v)
  }

  lemma CheckCellFound(b: Board, i: nat, j: nat, v: string)
    requires i < 3 && j < 3 && CheckCell(b, i, j) == Found(v)
    ensures HasLine(b, v)
  {
    var ps := Probes(b, v, i, j);
    var t :| 0 <= t < |ps| && ps[t] == Holds;
    if t == 0 {
      assert OnLine(b, 3 + j, v);
    } else if t == 1 {
      assert OnLine(b, i, v);
    } else if t == 2 {
      assert OnLine(b, 6, v);
    } else {
      assert OnLine(b, 7, v);
    }
  }

  lemma {:induction false} ScanFromSound(b: Board, k: nat, v: string)
    requires k <= 9 && ScanFrom(b, k) == Winner(v)
    ensures HasLine(b, v)
    decreases 9 - k
  {
    if CheckCell(b, k / 3, k % 3) == Found(v) {
      CheckCellFound(b, k / 3, k % 3, v);
    } else {
      ScanFromSound(b, k + 1, v);
    }
  }

  /** A winner reported by `getWinner` owns a whole row, column or diagonal. */
  lemma GetWinnerSound(b: Board, v: string)
    requires GetWinner(b) == Winner(v)
    ensures HasLine(b, v)
  {
    ScanFromSound(b, 0, v);
  }

  /** The steps the scan takes at cells `k`, `k + 1`, ..., 8. */
  function StepsFrom(b: Board, k: nat): (ss: seq<Step>)
    requires k <= 9
    ensures |ss| == 9 - k
    ensures forall t :: 0 <= t < |ss| ==> ss[t] == CellStep(b, k + t)
    decreases 9 - k
  {
    if k == 9 then [] else [CellStep(b, k)] + StepsFrom(b, k + 1)
  }

  /** The steps at all nine cells, in row-major order. */
  function Steps(b: Board): (ss: seq<Step>)
    ensures |ss| == 9
    ensures forall k :: 0 <= k < 9 ==> ss[k] == CellStep(b, k)
  {
    StepsFrom(b, 0)
  }

  /** A scan over a sequence of steps: the first one that does not move on
      decides. */
  function ScanSteps(ss: seq<Step>): WinnerScan
  {
    if ss == [] then NoWinner
    else match ss[0]
      case Found(v) => Winner(v)
      case Crash => OutOfBounds
      case Next => ScanSteps(ss[1..])
  }

  /** Step `m` is the first one that does not move on, and it is `s`. */
  predicate FirstStop(ss: seq<Step>, m: int, s: Step)
  {
    0 <= m < |ss| && ss[m] == s && forall m' :: 0 <= m' < m ==> ss[m'] == Next
  }

  /** A scan over steps reports `v` exactly when the first step that does
      not move on finds a line of `v`. */
  lemma {:induction false} ScanStepsFirst(ss: seq<Step>, v: string)
    ensures ScanSteps(ss) == Winner(v) <==> exists m :: FirstStop(ss, m, Found(v))
  {
    if ss != [] {
      assert forall m :: 1 <= m < |ss| ==> ss[m] == ss[1..][m - 1];
      if ss[0] == Next {
        ScanStepsFirst(ss[1..], v);
        assert forall m :: FirstStop(ss[1..], m, Found(v)) ==> FirstStop(ss, m + 1, Found(v));
        assert forall m :: FirstStop(ss, m, Found(v)) ==> m >= 1 && FirstStop(ss[1..], m - 1, Found(v));
      } else {
        assert forall m :: FirstStop(ss, m, Found(v)) ==> m == 0;
        if ss[0] == Found(v) {
          assert FirstStop(ss, 0, Found(v));
        }
      }
    }
  }

  /** A scan over steps reports no winner exactly when every step moves on. */
  lemma {:induction false} ScanStepsNone(ss: seq<Step>)
    ensures ScanSteps(ss) == NoWinner <==> forall m :: 0 <= m < |ss| ==> ss[m] == Next
  {
    if ss != [] && ss[0] == Next {
      ScanStepsNone(ss[1..]);
      assert forall m :: 1 <= m < |ss| ==> ss[m] == ss[1..][m - 1];
    }
  }

  /** From cell `k` on, the board's scan is the scan over its steps. */
  lemma {:induction false} ScanFromSteps(b: Board, k: nat)
    requires k <= 9
    ensures ScanFrom(b, k) == ScanSteps(StepsFrom(b, k))
    decreases 9 - k
  {
    if k < 9 {
      ScanFromSteps(b, k + 1);
      assert StepsFrom(b, k)[1..] == StepsFrom(b, k + 1);
    }
  }

  /** `getWinner` returns `v` exactly when some cell finds a line of `v` and
      every earlier cell, in row-major order, is passed over; it returns
      `null` exactly when every cell is passed over. */
  lemma GetWinnerFirstMatch(b: Board, v: string)
    ensures GetWinner(b) == Winner(v) <==> exists m :: FirstStop(Steps(b), m, Found(v))
    ensures GetWinner(b) == NoWinner <==> forall m :: 0 <= m < 9 ==> CellStep(b, m) == Next
  {
    ScanFromSteps(b, 0);
    ScanStepsFirst(Steps(b), v);
    ScanStepsNone(Steps(b));
  }

  lemma CheckCellNeverCrashes(b: Board, i: nat, j: nat)
    requires Readable3(b) && i < 3 && j < 3
    ensures CheckCell(b, i, j) != Crash
  {
    if b[i][j].Some? {
      var v := b[i][j].value;
      var ps := Probes(b, v, i, j);
      assert forall t :: 0 <= t < |ps| ==> ps[t] != Throws;
      DecideNeverCrashes(v, ps);
    }
  }

  lemma {:induction false} DecideNeverCrashes(v: string, ps: seq<Probe>)
    requires forall t :: 0 <= t < |ps| ==> ps[t] != Throws
    ensures Decide(v, ps) != Crash
  {
    if ps != [] && ps[0] == Fails {
      assert forall t :: 0 <= t < |ps[1..]| ==> ps[1..][t] == ps[t + 1];
      DecideNeverCrashes(v, ps[1..]);
    }
  }

  lemma {:induction false} ScanFromNeverCrashes(b: Board, k: nat)
    requires Readable3(b) && k <= 9
    ensures ScanFrom(b, k) != OutOfBounds
    decreases 9 - k
  {
    if k < 9 {
      CheckCellNeverCrashes(b, k / 3, k % 3);
      ScanFromNeverCrashes(b, k + 1);
    }
  }

  /** On a board with three rows of three cells `getWinner` never throws. */
  lemma GetWinnerNeverCrashes(b: Board)
    requires Readable3(b)
    ensures GetWinner(b) != OutOfBounds
  {
    ScanFromNeverCrashes(b, 0);
  }

  /** The cell from which the scan tests line `l`, and the test that sees it. */
  function LineStart(l: nat): (r: (nat, nat))
    requires l < 8
    ensures r.0 < 9 && r.1 < 4
  {
    if l < 3 then (3 * l, 1) else if l < 6 then (l - 3, 0) else if l == 6 then (0, 2) else (6, 3)
  }

  lemma LineStartFinds(b: Board, l: nat, v: string)
    requires Readable3(b) && l < 8 && OnLine(b, l, v)
    ensures CheckCell(b, LineStart(l).0 / 3, LineStart(l).0 % 3).Found?
  {
    var k := LineStart(l).0;
    var i, j := k / 3, k % 3;
    assert b[i][j] == Some(v) by {
      assert LineCell(l, 0) == (i, j);
    }
    var ps := Probes(b, v, i, j);
    assert ps[LineStart(l).1] == Holds by {
      if l < 3 {
        assert LineCell(l, 1) == (i, 1) && LineCell(l, 2) == (i, 2);
      } else if l < 6 {
        assert LineCell(l, 1) == (1, j) && LineCell(l, 2) == (2, j);
      } else if l == 6 {
        assert LineCell(l, 1) == (1, 1) && LineCell(l, 2) == (2, 2);
      } else {
        assert LineCell(l, 1) == (1, 1) && LineCell(l, 0) == (2, 0);
      }
    }
    CheckCellNeverCrashes(b, i, j);
  }

  lemma {:induction false} ScanFromReaches(b: Board, k: nat, start: nat)
    requires Readable3(b) && k <= start < 9 && CheckCell(b, start / 3, start % 3).Found?
    ensures ScanFrom(b, k).Winner?
    decreases start - k
  {
    CheckCellNeverCrashes(b, k / 3, k % 3);
    if k < start && CheckCell(b, k / 3, k % 3) == Next {
      ScanFromReaches(b, k + 1, start);
    }
  }

  /** On a board with three rows of three cells, a row, column or diagonal
      of three equal marks makes `getWinner` report a winner. */
  lemma GetWinnerComplete(b: Board, v: string)
    requires Readable3(b) && HasLine(b, v)
    ensures GetWinner(b).Winner?
  {
    var l :| 0 <= l < 8 && OnLine(b, l, v);
    LineStartFinds(b, l, v);
    ScanFromReaches(b, 0, LineStart(l).0);
  }

  /** The empty board has no winner. */
  lemma EmptyBoardHasNoWinner()
    ensures GetWinner(EmptyBoard()) == NoWinner
  {
    var b := EmptyBoard();
    var k := 9;
    while k > 0
      invariant 0 <= k <= 9 && ScanFrom(b, k) == NoWinner
    {
      k := k - 1;
      assert CheckCell(b, k / 3, k % 3) == Next;
    }
  }

  /** The scan is row-major: with X filling the top row and O the bottom
      row, X is reported. */
  lemma ScanOrderExample()
    ensures GetWinner([[Some("X"), Some("X"), Some("X")],
                       [None, None, None],
                       [Some("O"), Some("O"), Some("O")]]) == Winner("X")
  {
    var b := [[Some("X"), Some("X"), Some("X")], [None, None, None], [Some("O"), Some("O"), Some("O")]];
    assert Same(b, "X", 1, 0) == Fails;
    assert Same(b, "X", 0, 1) == Holds && Same(b, "X", 0, 2) == Holds;
    var ps := Probes(b, "X", 0, 0);
    assert ps[0] == Fails && ps[1..][0] == Holds;
    assert Decide("X", ps[1..]) == Found("X");
    assert CheckCell(b, 0, 0) == Found("X");
  }

  // ----------------------------------------------------------- printBoard

  /** `StringBuilder.append` of a cell: a `null` cell prints as "null". */
  function CellText(c: Cell): string
  {
    match c
    case None => "null"
    case Some(s) => s
  }

  /** The first `m` cells of a row, each followed by ", ". */
  function CellsText(row: seq<Cell>, m: nat): string
    requires m <= |row|
  {
    if m == 0 then "" else CellsText(row, m - 1) + CellText(row[m - 1]) + ", "
  }

  /** The first `n` rows, each as "[" + cells + "], ". */
  function RowsText(b: Board, n: nat): string
    requires n <= |b| && forall i :: 0 <= i < n ==> |b[i]| >= BOARD_LENGTH
  {
    if n == 0 then "" else RowsText(b, n - 1) + "[" + CellsText(b[n - 1], BOARD_LENGTH) + "], "
  }

  /** The text `printBoard` builds. */
  function BoardText(b: Board): string
    requires Readable3(b)
  {
    "board=[" + RowsText(b, BOARD_LENGTH) + "]"
  }

  /** The inner loop of `printBoard`: one row's cells, or None when the row
      is too short and the read throws. */
  method PrintRow(row: seq<Cell>) returns (r: Option<string>)
    ensures |row| >= BOARD_LENGTH ==> r == Some("[" + CellsText(row, BOARD_LENGTH))
    ensures |row| < BOARD_LENGTH ==> r == None
  {
    var text := "[";
    for j := 0 to BOARD_LENGTH
      invariant j <= |row|
      invariant text == "[" + CellsText(row, j)
    {
      if j >= |row| {
        return None;
      }
      text := text + CellText(row[j]) + ", ";
    }
    return Some(text);
  }

  /** Appending one more row to the text printed so far. */
  lemma RowsTextStep(b: Board, i: nat, prefix: string)
    requires i < |b| && |b[i]| >= BOARD_LENGTH && forall i' :: 0 <= i' < i ==> |b[i']| >= BOARD_LENGTH
    ensures prefix + RowsText(b, i) + ("[" + CellsText(b[i], BOARD_LENGTH)) + "], " == prefix + RowsText(b, i + 1)
  {
    var rows, cells := RowsText(b, i), CellsText(b[i], BOARD_LENGTH);
    assert RowsText(b, i + 1) == rows + "[" + cells + "], ";
    assert prefix + rows + ("[" + cells) + "], " == prefix + (rows + "[" + cells + "], ");
  }

  /** `printBoard`. The result is None when a read past the end of a short
      board throws. */
  method PrintBoard(b: Board) returns (r: Option<string>)
    ensures Readable3(b) ==> r == Some(BoardText(b))
    ensures !Readable3(b) ==> r == None
  {
    var text := "board=[";
    for i := 0 to BOARD_LENGTH
      invariant i <= |b| && forall i' :: 0 <= i' < i ==> |b[i']| >= BOARD_LENGTH
      invariant text == "board=[" + RowsText(b, i)
    {
      if i >= |b| {
        return None;
      }
      var row := PrintRow(b[i]);
      if row.None? {
        return None;
      }
      RowsTextStep(b, i, "board=[");
      text := text + row.value + "], ";
    }
    return Some(text + "]");
  }

  /** An empty row prints as three "null, ". */
  lemma EmptyRowText(row: seq<Cell>)
    requires row == [None, None, None]
    ensures "[" + CellsText(row, 3) + "], " == "[null, null, null, ], "
  {
    assert CellsText(row, 1) == "null, ";
    assert CellsText(row, 2) == "null, null, ";
  }

  /** The empty board prints as three rows of three "null, ". */
  lemma EmptyBoardText()
    ensures var row := "[null, null, null, ], ";
      BoardText(EmptyBoard()) == "board=[" + row + row + row + "]"
  {
    EmptyRowsText();
  }

  /** The three rows of the empty board. */
  lemma EmptyRowsText()
    ensures var row := "[null, null, null, ], ";
      RowsText(EmptyBoard(), 3) == row + row + row
  {
    var b := EmptyBoard();
    var row := "[null, null, null, ], ";
    EmptyRowText(b[0]);
    EmptyRowText(b[1]);
    EmptyRowText(b[2]);
    assert RowsText(b, 1) == row;
    assert RowsText(b, 2) == row + row;
  }
}
