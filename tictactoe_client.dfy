/** The `TicTacToe` page component (`tictactoe.js`): its state, the
    X-then-O player set-up, the click handler, the end-of-game records and
    the full-board test. Requests to the server are returned as values and
    the server's answers passed in. */
module TicTacToeClient {
  import opened Wrappers
  import opened JavaText
  import opened PlayerDomain
  import opened TicTacToeDomain
  import PlayerLedger
  import PF = PlayerForm

  // ------------------------------------------------------------- the board

  /** A JavaScript truthy cell or winner: neither `null` nor `""`. */
  predicate Truthy(c: Option<string>)
  {
    c.Some? && c.value != ""
  }

  /** The mark of the player whose turn it is. */
  function Mark(xNext: bool): string
  {
    if xNext then "X" else "O"
  }

  /** Three rows of three cells. */
  predicate IsThreeByThree(b: Board)
  {
    |b| == BOARD_LENGTH && forall i :: 0 <= i < BOARD_LENGTH ==> |b[i]| == BOARD_LENGTH
  }

  /** `board[i][j] = mark`. */
  function Place(b: Board, i: nat, j: nat, mark: string): (r: Board)
    requires InBounds(b, i, j)
    ensures |r| == |b| && forall k :: 0 <= k < |b| ==> |r[k]| == |b[k]|
    ensures r[i][j] == Some(mark)
    ensures forall k, l :: 0 <= k < |b| && 0 <= l < |b[k]| && (k, l) != (i, j) ==> r[k][l] == b[k][l]
  {
    b[i := b[i][j := Some(mark)]]
  }

  /** Cell `(i, j)` exists and is truthy. */
  predicate CellFull(b: Board, i: nat, j: nat)
    requires i < |b|
  {
    j < |b[i]| && Truthy(b[i][j])
  }

  /** The first `n` cells of row `i` exist and are truthy. */
  predicate RowFull(b: Board, i: nat, n: nat)
    requires i < |b|
  {
    forall j :: 0 <= j < n ==> CellFull(b, i, j)
  }

  /** What `isGameOver` decides: in every row the first `n` cells, `n`
      being the number of rows, exist and are truthy. */
  predicate IsFull(b: Board)
  {
    forall i :: 0 <= i < |b| ==> RowFull(b, i, |b|)
  }

  /** `isGameOver`: the nested scan that stops at the first empty cell. */
  method IsGameOver(board: Board) returns (over: bool)
    ensures over == IsFull(board)
  {
    var n := |board|;
    for i := 0 to n
      invariant forall i' :: 0 <= i' < i ==> RowFull(board, i', n)
    {
      for j := 0 to n
        invariant RowFull(board, i, j)
      {
        if j >= |board[i]| || !Truthy(board[i][j]) {
          assert !CellFull(board, i, j);
          assert !RowFull(board, i, n);
          return false;
        }
      }
    }
    return true;
  }

  /** The number of truthy cells in a row. */
  function RowMarks(row: seq<Cell>): (r: nat)
    ensures r <= |row|
  {
    if row == [] then 0 else RowMarks(row[..|row| - 1]) + (if Truthy(row[|row| - 1]) then 1 else 0)
  }

  /** The number of truthy cells on the board. */
  function Marks(b: Board): nat
  {
    if b == [] then 0 else RowMarks(b[0]) + Marks(b[1..])
  }

  lemma {:induction false} RowMarksFull(row: seq<Cell>)
    ensures RowMarks(row) == |row| <==> forall j :: 0 <= j < |row| ==> Truthy(row[j])
  {
    if row != [] {
      var front := row[..|row| - 1];
      RowMarksFull(front);
      assert forall j :: 0 <= j < |front| ==> front[j] == row[j];
    }
  }

  lemma {:induction false} RowMarksUpdate(row: seq<Cell>, j: nat, c: Cell)
    requires j < |row|
    ensures RowMarks(row[j := c]) + (if Truthy(row[j]) then 1 else 0)
         == RowMarks(row) + (if Truthy(c) then 1 else 0)
  {
    var row' := row[j := c];
    if j < |row| - 1 {
      RowMarksUpdate(row[..|row| - 1], j, c);
      assert row'[..|row'| - 1] == row[..|row| - 1][j := c];
    } else {
      assert row'[..|row'| - 1] == row[..|row| - 1];
    }
  }

  lemma {:induction false} MarksUpdate(b: Board, i: nat, row: seq<Cell>)
    requires i < |b|
    ensures Marks(b[i := row]) + RowMarks(b[i]) == Marks(b) + RowMarks(row)
  {
    if i > 0 {
      MarksUpdate(b[1..], i - 1, row);
      assert b[i := row][1..] == b[1..][i - 1 := row];
    } else {
      assert b[i := row][1..] == b[1..];
    }
  }

  /** A click on an empty cell adds exactly one mark. */
  lemma PlaceAddsOneMark(b: Board, i: nat, j: nat, mark: string)
    requires InBounds(b, i, j) && !Truthy(b[i][j]) && mark != ""
    ensures Marks(Place(b, i, j, mark)) == Marks(b) + 1
  {
    RowMarksUpdate(b[i], j, Some(mark));
    MarksUpdate(b, i, b[i][j := Some(mark)]);
  }

  /** A three-by-three board is over exactly when it holds nine marks. */
  lemma FullIffNineMarks(b: Board)
    requires IsThreeByThree(b)
    ensures IsFull(b) <==> Marks(b) == 9
  {
    RowMarksFull(b[0]);
    RowMarksFull(b[1]);
    RowMarksFull(b[2]);
    var b1 := b[1..];
    var b2 := b1[1..];
    assert b1[0] == b[1] && b2[0] == b[2] && b2[1..] == [];
    assert Marks(b2) == RowMarks(b[2]);
    assert Marks(b) == RowMarks(b[0]) + RowMarks(b[1]) + RowMarks(b[2]);
    forall i | 0 <= i < 3
      ensures RowFull(b, i, 3) <==> forall j :: 0 <= j < |b[i]| ==> Truthy(b[i][j])
    {
      assert forall j :: 0 <= j < 3 ==> (CellFull(b, i, j) <==> Truthy(b[i][j]));
    }
    assert IsFull(b) <==> RowFull(b, 0, 3) && RowFull(b, 1, 3) && RowFull(b, 2, 3);
  }

  /** The board of a new game is not over. */
  lemma EmptyBoardIsNotOver()
    ensures !IsFull(EmptyBoard())
  {
    var b := EmptyBoard();
    assert !CellFull(b, 0, 0);
    assert !RowFull(b, 0, 3);
  }

  // ----------------------------------------------------------- the players

  /** `validPlayerNames`: the players differ in the lower-cased, trimmed
      first name or last name. */
  predicate ValidPlayerNames(x: Player, o: Player)
  {
    !(JsTrim(Lower(x.firstName)) == JsTrim(Lower(o.firstName))
      && JsTrim(Lower(x.lastName)) == JsTrim(Lower(o.lastName)))
  }

  /** The test is symmetric, no player is valid against itself, and players
      the server takes for namesakes are never both admitted. */
  lemma ValidPlayerNamesSpec(x: Player, o: Player)
    ensures ValidPlayerNames(x, o) <==> ValidPlayerNames(o, x)
    ensures !ValidPlayerNames(x, x)
    ensures HaveSameName(x, o) ==> !ValidPlayerNames(x, o)
  {
  }

  // ----------------------------------------------------------- the game

  /** The `ticTacToe` object sent to `save-move` and the snapshot a response
      carries. */
  datatype GameState = GameState(winner: Option<string>, xNext: bool, board: Board)

  /** What a click leads to: nothing (with the game-over alert or not), a
      revert request first, or a save request. */
  datatype Click = Ignored(gameOverAlert: bool) | RevertFirst(move: int) | SaveMove(request: GameState)

  /** How a saved move ends the game. */
  datatype Ending = Won(byX: bool) | Drawn | Ongoing

  /** A truthy winner ends the game for X exactly when it is "X"; a full
      board without one is a draw. */
  function EndingOf(winner: Option<string>, b: Board): Ending
  {
    if Truthy(winner) then Won(winner.value == "X") else if IsFull(b) then Drawn else Ongoing
  }

  /** The counter the end of the game sets on a player's object: the winner's
      wins, the loser's losses, both players' draws. */
  function Settled(p: Player, e: Ending, isX: bool): Player
  {
    match e
    case Won(byX) => if byX == isX then p.(numTicTacToeWin := 1) else p.(numTicTacToeLoss := 1)
    case Drawn => p.(numTicTacToeDraw := 1)
    case Ongoing => p
  }

  /** The records sent to `save-record`, in order: winner then loser, or X
      then O on a draw. */
  function Records(e: Ending, x: Player, o: Player): seq<Player>
  {
    match e
    case Won(byX) => if byX then [x, o] else [o, x]
    case Drawn => [x, o]
    case Ongoing => []
  }

  predicate HasNoGames(p: Player)
  {
    p.numTicTacToeDraw == 0 && p.numTicTacToeLoss == 0 && p.numTicTacToeWin == 0
  }

  /** Players created by the dialog have no games, so the records of the
      first ending are one win and one loss, or two draws, each a valid
      single-game record for the server. */
  lemma FirstEndingRecordsAreSingleGames(x: Player, o: Player, e: Ending)
    requires HasNoGames(x) && HasNoGames(o)
    ensures var rs := Records(e, Settled(x, e, true), Settled(o, e, false));
      && (forall k :: 0 <= k < |rs| ==> PlayerLedger.IsSingleGameRecord(rs[k]))
      && (e.Won? ==> |rs| == 2 && rs[0].numTicTacToeWin == 1 && rs[1].numTicTacToeLoss == 1)
      && (e.Drawn? ==> |rs| == 2 && rs[0].numTicTacToeDraw == 1 && rs[1].numTicTacToeDraw == 1)
      && (e.Ongoing? ==> rs == [])
  {
  }

  /** The counters stay on the page's player objects. Once there is a winner
      the page offers no time travel and ignores clicks, so a second ending
      can only follow a draw. A win reached from there by time travel sends
      each player's record with a draw and a win or a loss, which the server
      refuses; a second draw is sent as a single game again. */
  lemma SecondEndingRecords(p: Player, byX: bool, isX: bool)
    requires HasNoGames(p)
    ensures !PlayerLedger.IsSingleGameRecord(Settled(Settled(p, Drawn, isX), Won(byX), isX))
    ensures PlayerLedger.IsSingleGameRecord(Settled(Settled(p, Drawn, isX), Drawn, isX))
  {
  }

  /** The messages of the create dialog. */
  const FIRST_NAME_MESSAGE := "First name cannot be empty or white space(s)."
  const LAST_NAME_MESSAGE := "Last name cannot be empty or white spaces(s)."
  const SAME_NAME_MESSAGE := "Player O cannot have the same first name and last name as Player X. "
    + "Please choose a different first name and/or a different last name for Player O."

  class TicTacToeView {
    var winner: Option<string>
    var xNext: bool
    var board: Board
    var numOfMoves: int
    var numOfMovesResetByTimeTravel: int
    var playerX: Option<Player>
    var playerO: Option<Player>

    /** The board is three by three, and player O is only set after player X. */
    ghost predicate Valid()
      reads this
    {
      IsThreeByThree(board) && (playerO.Some? ==> playerX.Some?)
    }

    /** The two players' names differ. */
    ghost predicate Distinct()
      reads this
    {
      playerX.Some? && playerO.Some? ==> ValidPlayerNames(playerX.value, playerO.value)
    }

    constructor ()
      ensures Valid()
      ensures winner == None && xNext && board == EmptyBoard()
      ensures numOfMoves == -1 && numOfMovesResetByTimeTravel == -1
      ensures playerX == None && playerO == None
    {
      winner, xNext, board := None, true, EmptyBoard();
      numOfMoves, numOfMovesResetByTimeTravel := -1, -1;
      playerX, playerO := None, None;
    }

    /** `initPlayer`: the first player becomes X; the second becomes O when
        its names differ from X's; any other call is refused. */
    method InitPlayer(player: Player) returns (ok: bool)
      requires Valid()
      modifies this
      ensures Valid()
      ensures old(Distinct()) ==> Distinct()
      ensures old(playerX).None? ==> ok && playerX == Some(player) && playerO == old(playerO)
      ensures old(playerX).Some? && old(playerO).None? ==>
        && ok == ValidPlayerNames(old(playerX).value, player)
        && playerX == old(playerX)
        && playerO == (if ok then Some(player) else None)
      ensures old(playerX).Some? && old(playerO).Some? ==>
        !ok && playerX == old(playerX) && playerO == old(playerO)
      ensures winner == old(winner) && xNext == old(xNext) && board == old(board)
      ensures numOfMoves == old(numOfMoves) && numOfMovesResetByTimeTravel == old(numOfMovesResetByTimeTravel)
    {
      if playerX.None? {
        playerX := Some(player);
        return true;
      } else if playerO.None? {
        if ValidPlayerNames(playerX.value, player) {
          playerO := Some(player);
          return true;
        }
      }
      return false;
    }

    /** `CreatePlayer.handleSubmit`: the inputs become a player with trimmed
        names and no games; an empty first or last name is refused before
        `initPlayer` is called. */
    method SubmitPlayer(input: PF.Attribute -> string) returns (alert: Option<string>)
      requires Valid()
      modifies this
      ensures Valid()
      ensures var p := Player(None, JsTrim(input(PF.FirstName)), JsTrim(input(PF.LastName)),
                              Some(JsTrim(input(PF.NickName))), 0, 0, 0, false);
        && (p.firstName == [] ==> alert == Some(FIRST_NAME_MESSAGE))
        && (p.firstName != [] && p.lastName == [] ==> alert == Some(LAST_NAME_MESSAGE))
        && (alert.Some? ==> playerX == old(playerX) && playerO == old(playerO))
        && (alert.None? ==> playerX == Some(p) || playerO == Some(p))
        && (p.firstName != [] && p.lastName != [] && old(playerX).None? ==> alert.None? && playerX == Some(p) && playerO == old(playerO))
        && (p.firstName != [] && p.lastName != [] && old(playerX).Some? ==>
              && (alert.None? <==> old(playerO).None? && ValidPlayerNames(old(playerX).value, p))
              && (alert.None? ==> playerX == old(playerX) && playerO == Some(p))
              && (alert.Some? ==> alert == Some(SAME_NAME_MESSAGE)))
      ensures winner == old(winner) && xNext == old(xNext) && board == old(board)
      ensures numOfMoves == old(numOfMoves) && numOfMovesResetByTimeTravel == old(numOfMovesResetByTimeTravel)
    {
      var newPlayer := PF.FillForm(input, PF.Zeros);
      PF.CreateFormGivesNewPlayer(input);
      var player := PF.ToPlayer(newPlayer);
      if |player.firstName| < 1 {
        return Some(FIRST_NAME_MESSAGE);
      } else if |player.lastName| < 1 {
        return Some(LAST_NAME_MESSAGE);
      }
      var ok := InitPlayer(player);
      if !ok {
        return Some(SAME_NAME_MESSAGE);
      }
      return None;
    }

    /** `handleClick`: a click after a winner or on a marked cell does
        nothing; after time travel the game is first reverted to the viewed
        move; otherwise the mark of the player to move is put into the cell
        of the board in place and the move sent with the turn passed on. */
    method HandleClick(i: nat, j: nat) returns (action: Click)
      requires Valid() && i < BOARD_LENGTH && j < BOARD_LENGTH
      modifies this
      ensures Valid()
      ensures Truthy(old(winner)) || Truthy(old(board)[i][j]) ==>
        && action == Ignored(Truthy(old(winner)) || IsFull(old(board)))
        && board == old(board)
      ensures !Truthy(old(winner)) && !Truthy(old(board)[i][j]) && old(numOfMovesResetByTimeTravel) < old(numOfMoves) ==>
        && action == RevertFirst(old(numOfMovesResetByTimeTravel))
        && board == old(board)
      ensures !Truthy(old(winner)) && !Truthy(old(board)[i][j]) && old(numOfMovesResetByTimeTravel) >= old(numOfMoves) ==>
        && board == Place(old(board), i, j, Mark(old(xNext)))
        && action == SaveMove(GameState(old(winner), !old(xNext), board))
      ensures winner == old(winner) && xNext == old(xNext)
      ensures numOfMoves == old(numOfMoves) && numOfMovesResetByTimeTravel == old(numOfMovesResetByTimeTravel)
      ensures playerX == old(playerX) && playerO == old(playerO)
    {
      if Truthy(winner) || Truthy(board[i][j]) {
        var over := false;
        if !Truthy(winner) {
          over := IsGameOver(board);
        }
        return Ignored(Truthy(winner) || over);
      }
      if numOfMovesResetByTimeTravel < numOfMoves {
        return RevertFirst(numOfMovesResetByTimeTravel);
      }
      board := Place(board, i, j, Mark(xNext));
      return SaveMove(GameState(winner, !xNext, board));
    }

    /** The answer to the revert request of `handleClick`: the move count
        goes back to the viewed move and the mark is put into the cell of the
        returned snapshot. */
    method AfterRevert(i: nat, j: nat, snapshot: GameState) returns (request: GameState)
      requires Valid() && i < BOARD_LENGTH && j < BOARD_LENGTH && IsThreeByThree(snapshot.board)
      modifies this
      ensures Valid()
      ensures numOfMoves == old(numOfMovesResetByTimeTravel)
      ensures request == GameState(snapshot.winner, !snapshot.xNext, Place(snapshot.board, i, j, Mark(snapshot.xNext)))
      ensures winner == old(winner) && xNext == old(xNext) && board == old(board)
      ensures numOfMovesResetByTimeTravel == old(numOfMovesResetByTimeTravel)
      ensures playerX == old(playerX) && playerO == old(playerO)
    {
      numOfMoves := numOfMovesResetByTimeTravel;
      var boardNew := Place(snapshot.board, i, j, Mark(snapshot.xNext));
      request := GameState(snapshot.winner, !snapshot.xNext, boardNew);
    }

    /** `viewPastMove`'s answer: the snapshot is shown and the move it shows
        remembered; the move count is kept. */
    method ShowPastMove(pastMove: int, snapshot: GameState)
      requires Valid() && IsThreeByThree(snapshot.board)
      modifies this
      ensures Valid()
      ensures winner == snapshot.winner && xNext == snapshot.xNext && board == snapshot.board
      ensures numOfMovesResetByTimeTravel == pastMove && numOfMoves == old(numOfMoves)
      ensures playerX == old(playerX) && playerO == old(playerO)
    {
      winner, xNext, board := snapshot.winner, snapshot.xNext, snapshot.board;
      numOfMovesResetByTimeTravel := pastMove;
    }

    /** `saveTicTacToe`'s answer: the saved move is shown, both move counts
        become one more than the last count, and when the game has ended the
        counter of each player's object is set and the records to send
        returned. */
    method AfterSave(response: GameState) returns (records: seq<Player>)
      requires Valid() && playerX.Some? && playerO.Some? && IsThreeByThree(response.board)
      modifies this
      ensures Valid()
      ensures winner == response.winner && xNext == response.xNext && board == response.board
      ensures numOfMoves == old(numOfMoves) + 1 && numOfMovesResetByTimeTravel == old(numOfMoves) + 1
      ensures var e := EndingOf(response.winner, response.board);
        && playerX == Some(Settled(old(playerX).value, e, true))
        && playerO == Some(Settled(old(playerO).value, e, false))
        && records == Records(e, playerX.value, playerO.value)
    {
      var x, o;
      x, o, records := EndGame(response.winner, response.board, playerX.value, playerO.value);
      winner, xNext, board := response.winner, response.xNext, response.board;
      numOfMovesResetByTimeTravel := numOfMoves + 1;
      numOfMoves := numOfMoves + 1;
      playerX, playerO := Some(x), Some(o);
    }
  }

  /** The counters `saveTicTacToe` sets on the players' objects `x` and `o`
      and the records it sends, for the move shown with `winner` and `board`. */
  method EndGame(winner: Option<string>, board: Board, x: Player, o: Player)
    returns (x': Player, o': Player, records: seq<Player>)
    ensures var e := EndingOf(winner, board);
      x' == Settled(x, e, true) && o' == Settled(o, e, false) && records == Records(e, x', o')
  {
    x', o', records := x, o, [];
    if Truthy(winner) {
      if winner.value == "X" {
        x', o' := x'.(numTicTacToeWin := 1), o'.(numTicTacToeLoss := 1);
        records := [x', o'];
      } else {
        o', x' := o'.(numTicTacToeWin := 1), x'.(numTicTacToeLoss := 1);
        records := [o', x'];
      }
    } else {
      var over := IsGameOver(board);
      if over {
        x', o' := x'.(numTicTacToeDraw := 1), o'.(numTicTacToeDraw := 1);
        records := [x', o'];
      }
    }
  }
}
