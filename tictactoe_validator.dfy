/** The Spring `Validator` for `TicTacToe` requests: the board must have
    three rows of three cells, and a winner, if the board has one, must be
    "X" or "O". */
module TicTacToeValidation {
  import opened Wrappers
  import opened TicTacToeDomain
  import FE = FieldErrors

  /** The validation either collects its field errors or ends with the
      exception `getWinner` throws on a board too small to scan. */
  datatype Validation = Errors(errors: seq<FE.FieldError>) | Thrown

  const WRONG_SIZE := FE.FieldError(FE.Board, FE.WrongSize)
  const INVALID_WINNER := FE.FieldError(FE.Winner, FE.InvalidValue)

  /** One `wrong.size` error per row whose length is not three, in row order. */
  function RowSizeErrors(rows: seq<seq<Cell>>): (r: seq<FE.FieldError>)
    ensures |r| <= |rows|
    ensures forall t :: 0 <= t < |r| ==> r[t] == WRONG_SIZE
    ensures r == [] <==> forall i :: 0 <= i < |rows| ==> |rows[i]| == BOARD_LENGTH
  {
    if rows == [] then []
    else RowSizeErrors(rows[..|rows| - 1]) + (if |rows[|rows| - 1]| != BOARD_LENGTH then [WRONG_SIZE] else [])
  }

  /** The size errors: one for a board without three rows, else one per bad row. */
  function SizeErrors(b: Board): seq<FE.FieldError>
  {
    if |b| != BOARD_LENGTH then [WRONG_SIZE] else RowSizeErrors(b)
  }

  predicate IsPlayerMark(w: string)
  {
    w == "X" || w == "O"
  }

  /** What `validate` records for a move with board `b`. */
  function Validate(b: Board): Validation
  {
    match GetWinner(b)
    case OutOfBounds => Thrown
    case NoWinner => Errors(SizeErrors(b))
    case Winner(w) => Errors(SizeErrors(b) + (if IsPlayerMark(w) then [] else [INVALID_WINNER]))
  }

  /** `TicTacToeValidator.validate`. */
  method ValidateMove(m: Move) returns (r: Validation)
    ensures r == Validate(m.board)
  {
    var board := m.board;
    var errors: seq<FE.FieldError> := [];
    if |board| != BOARD_LENGTH {
      errors := errors + [WRONG_SIZE];
    } else {
      var i := 0;
      while i < |board|
        invariant 0 <= i <= |board|
        invariant errors == RowSizeErrors(board[..i])
      {
        assert board[..i + 1][..i] == board[..i];
        if |board[i]| != BOARD_LENGTH {
          errors := errors + [WRONG_SIZE];
        }
        i := i + 1;
      }
      assert board[..i] == board;
    }
    var winner := GetWinner(board);
    match winner
    case OutOfBounds =>
      return Thrown;
    case NoWinner =>
      return Errors(errors);
    case Winner(w) =>
      if !IsPlayerMark(w) {
        errors := errors + [INVALID_WINNER];
      }
      return Errors(errors);
  }

  /** Three rows of three cells, each empty or holding a player's mark. */
  predicate IsWellFormed(b: Board)
  {
    && |b| == BOARD_LENGTH
    && (forall i :: 0 <= i < BOARD_LENGTH ==> |b[i]| == BOARD_LENGTH)
    && forall i, j :: 0 <= i < BOARD_LENGTH && 0 <= j < BOARD_LENGTH && b[i][j].Some? ==> IsPlayerMark(b[i][j].value)
  }

  /** A well-formed board passes validation. */
  lemma WellFormedBoardIsValid(b: Board)
    requires IsWellFormed(b)
    ensures Validate(b) == Errors([])
  {
    GetWinnerNeverCrashes(b);
    if GetWinner(b).Winner? {
      var w := GetWinner(b).mark;
      GetWinnerSound(b, w);
      var l :| 0 <= l < 8 && OnLine(b, l, w);
      assert b[LineCell(l, 0).0][LineCell(l, 0).1] == Some(w);
    }
  }

  /** On a three-by-three board the only error is an invalid winner, and it
      is reported exactly when `getWinner` finds a line of some other mark. */
  lemma InvalidWinnerIff(b: Board)
    requires |b| == BOARD_LENGTH && forall i :: 0 <= i < BOARD_LENGTH ==> |b[i]| == BOARD_LENGTH
    ensures Validate(b).Errors?
    ensures Validate(b).errors == [INVALID_WINNER] <==> GetWinner(b).Winner? && !IsPlayerMark(GetWinner(b).mark)
    ensures Validate(b).errors == [] <==> !(GetWinner(b).Winner? && !IsPlayerMark(GetWinner(b).mark))
  {
    GetWinnerNeverCrashes(b);
  }

  /** A cell holding any other mark is only caught when it completes a line:
      a lone "Z" passes. */
  lemma LoneForeignMarkPasses()
    ensures Validate([[Some("Z"), None, None], [None, None, None], [None, None, None]]) == Errors([])
  {
    var b := [[Some("Z"), None, None], [None, None, None], [None, None, None]];
    var k := 9;
    while k > 0
      invariant 0 <= k <= 9 && ScanFrom(b, k) == NoWinner
    {
      k := k - 1;
      if k == 0 {
        assert Same(b, "Z", 1, 0) == Fails && Same(b, "Z", 0, 1) == Fails && Same(b, "Z", 1, 1) == Fails;
        var ps := Probes(b, "Z", 0, 0);
        assert forall t :: 0 <= t < |ps| ==> ps[t] == Fails;
      }
      assert CheckCell(b, k / 3, k % 3) == Next;
    }
  }

  /** A line of "Z"s is reported as an invalid winner. */
  lemma ForeignLineIsInvalid()
    ensures Validate([[Some("Z"), Some("Z"), Some("Z")], [None, None, None], [None, None, None]]) == Errors([INVALID_WINNER])
  {
    var b := [[Some("Z"), Some("Z"), Some("Z")], [None, None, None], [None, None, None]];
    var ps := Probes(b, "Z", 0, 0);
    assert Same(b, "Z", 1, 0) == Fails;
    assert ps[0] == Fails && ps[1..][0] == Holds;
    assert Decide("Z", ps[1..]) == Found("Z");
    assert CheckCell(b, 0, 0) == Found("Z");
  }

  /** A board without rows makes the scan throw. */
  lemma NoRowsThrows()
    ensures Validate([]) == Thrown
  {
  }

  /** A board with two rows is reported as the wrong size without throwing
      when the scan finds a line before it reads past the last row. */
  lemma TwoRowsWithLine()
    ensures Validate([[Some("X"), Some("X"), Some("X")], [None, None, None]]) == Errors([WRONG_SIZE])
  {
    var b := [[Some("X"), Some("X"), Some("X")], [None, None, None]];
    var ps := Probes(b, "X", 0, 0);
    assert Same(b, "X", 1, 0) == Fails;
    assert ps[0] == Fails && ps[1..][0] == Holds;
    assert Decide("X", ps[1..]) == Found("X");
    assert CheckCell(b, 0, 0) == Found("X");
  }
}
