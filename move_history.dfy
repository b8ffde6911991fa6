/** The Tic-Tac-Toe move history: every move ever saved stays in the move
    repository, and the moves of the current game are those whose
    `isCurrentGame` flag is raised, in the order they were saved. Resetting
    the game and travelling back in time both work by lowering that flag. */
module MoveHistory {
  import opened Wrappers
  import opened JavaText
  import opened TicTacToeDomain
  import opened Repository

  /** Row `k` of the store carries the generated id `k + 1`. */
  predicate WellKeyed(rows: seq<Move>)
  {
    forall k :: 0 <= k < |rows| ==> rows[k].id == Some(k + 1)
  }

  /** The store after `save`, and the entity `save` returns. */
  datatype Saved = Saved(rows: seq<Move>, move: Move)

  /** `save`: a move whose id names a stored row overwrites it, any other
      move is appended under the next id. */
  function SaveTo(rows: seq<Move>, m: Move): (r: Saved)
    ensures var k := SaveSlot(|rows|, m.id);
      && r.move == m.(id := Some(k + 1))
      && |r.rows| == (if k < |rows| then |rows| else |rows| + 1)
      && r.rows[k] == r.move
      && forall q :: 0 <= q < |rows| && q != k ==> r.rows[q] == rows[q]
  {
    var k := SaveSlot(|rows|, m.id);
    var saved := m.(id := Some(k + 1));
    Saved(if k < |rows| then rows[k := saved] else rows + [saved], saved)
  }

  lemma SavePreservesWellKeyed(rows: seq<Move>, m: Move)
    requires WellKeyed(rows)
    ensures WellKeyed(SaveTo(rows, m).rows)
  {
  }

  /** `findByIsCurrentGame(true)`: the current game's moves in store order. */
  function CurrentGame(s: seq<Move>): (r: seq<Move>)
    ensures |r| <= |s|
    ensures forall t :: 0 <= t < |r| ==> r[t] in s && r[t].isCurrentGame
  {
    if s == [] then []
    else CurrentGame(s[..|s| - 1]) + (if s[|s| - 1].isCurrentGame then [s[|s| - 1]] else [])
  }

  /** The store positions of the moves `CurrentGame` finds. */
  function Positions(s: seq<Move>): (P: seq<nat>)
    ensures |P| == |CurrentGame(s)|
    ensures forall t :: 0 <= t < |P| ==> P[t] < |s| && s[P[t]] == CurrentGame(s)[t]
  {
    if s == [] then []
    else Positions(s[..|s| - 1]) + (if s[|s| - 1].isCurrentGame then [|s| - 1] else [])
  }

  /** How many moves of the current game lie before position `q`. */
  function Rank(s: seq<Move>, q: nat): nat
    requires q <= |s|
  {
    |CurrentGame(s[..q])|
  }

  lemma {:induction false} RankOfPosition(s: seq<Move>, t: nat)
    requires t < |Positions(s)|
    ensures Rank(s, Positions(s)[t]) == t
  {
    var s' := s[..|s| - 1];
    var q := Positions(s)[t];
    if t < |Positions(s')| {
      assert Positions(s)[t] == Positions(s')[t];
      assert s[..q] == s'[..q];
      RankOfPosition(s', t);
    } else {
      assert s[..q] == s';
    }
  }

  lemma {:induction false} PositionOfRank(s: seq<Move>, q: nat)
    requires q < |s| && s[q].isCurrentGame
    ensures Rank(s, q) < |Positions(s)| && Positions(s)[Rank(s, q)] == q
  {
    var s' := s[..|s| - 1];
    if q < |s| - 1 {
      assert s[..q] == s'[..q];
      PositionOfRank(s', q);
    } else {
      assert s[..q] == s';
    }
  }

  /** Moves of the current game from rank `n` on, up to but excluding rank
      `t`, have left the game; everything else is as in `s`. */
  ghost function Cleared(s: seq<Move>, n: nat, t: nat): (r: seq<Move>)
    ensures |r| == |s|
    ensures forall q :: 0 <= q < |s| ==> r[q].id == s[q].id
  {
    seq(|s|, q requires 0 <= q < |s| =>
      if s[q].isCurrentGame && n <= Rank(s, q) < t then RemoveFromCurrentGame(s[q]) else s[q])
  }

  /** The store once every move of the current game from rank `n` on has
      been removed from the game. */
  function KeepCurrent(s: seq<Move>, n: nat): (r: seq<Move>)
    ensures |r| == |s|
    ensures forall q :: 0 <= q < |s| ==> r[q].(isCurrentGame := s[q].isCurrentGame) == s[q]
    ensures forall q :: 0 <= q < |s| && r[q].isCurrentGame ==> s[q].isCurrentGame
  {
    seq(|s|, q requires 0 <= q < |s| =>
      if s[q].isCurrentGame && n <= Rank(s, q) then RemoveFromCurrentGame(s[q]) else s[q])
  }

  lemma ClearedNone(s: seq<Move>, n: nat)
    ensures Cleared(s, n, n) == s
  {
  }

  lemma ClearedAll(s: seq<Move>, n: nat)
    ensures Cleared(s, n, |CurrentGame(s)|) == KeepCurrent(s, n)
  {
    forall q | 0 <= q < |s| && s[q].isCurrentGame
      ensures Rank(s, q) < |CurrentGame(s)|
    {
      PositionOfRank(s, q);
    }
  }

  /** Removing the move of rank `t` advances `Cleared` by one rank. */
  lemma ClearStep(s: seq<Move>, n: nat, t: nat)
    requires n <= t < |CurrentGame(s)|
    ensures Cleared(s, n, t)[Positions(s)[t] := RemoveFromCurrentGame(s[Positions(s)[t]])] == Cleared(s, n, t + 1)
  {
    var p := Positions(s)[t];
    RankOfPosition(s, t);
    forall q | 0 <= q < |s| && s[q].isCurrentGame && Rank(s, q) == t
      ensures q == p
    {
      PositionOfRank(s, q);
    }
  }

  /** Removing a suffix of the current game leaves exactly its prefix of
      length `n` (or all of it, when shorter) in the current game. */
  lemma {:induction false} KeepCurrentFindsPrefix(s: seq<Move>, n: nat)
    ensures CurrentGame(KeepCurrent(s, n)) == CurrentGame(s)[..Min(n, |CurrentGame(s)|)]
  {
    if s != [] {
      var s' := s[..|s| - 1];
      var K := KeepCurrent(s, n);
      var x := s[|s| - 1];
      KeepCurrentPrefix(s, n, |s| - 1);
      KeepCurrentFindsPrefix(s', n);
      var c' := CurrentGame(s');
      var kept := c'[..Min(n, |c'|)];
      assert CurrentGame(K[..|s| - 1]) == kept;
      assert CurrentGame(s) == c' + (if x.isCurrentGame then [x] else []);
      assert CurrentGame(K) == kept + (if K[|s| - 1].isCurrentGame then [K[|s| - 1]] else []);
      assert Rank(s, |s| - 1) == |c'| by {
        assert s[..|s| - 1] == s';
      }
      KeptAppend(c', x, K[|s| - 1], n);
    }
  }

  /** One step of `KeepCurrentFindsPrefix`: the last move is kept in the
      current game exactly when the kept prefix is still shorter than `n`. */
  lemma KeptAppend(c: seq<Move>, x: Move, kx: Move, n: nat)
    requires kx.isCurrentGame <==> x.isCurrentGame && |c| < n
    requires kx.isCurrentGame ==> kx == x
    ensures var c1 := c + (if x.isCurrentGame then [x] else []);
      c[..Min(n, |c|)] + (if kx.isCurrentGame then [kx] else []) == c1[..Min(n, |c1|)]
  {
    if x.isCurrentGame && |c| < n {
      assert (c + [x])[..Min(n, |c| + 1)] == c + [x];
    } else if x.isCurrentGame {
      assert (c + [x])[..Min(n, |c| + 1)] == c[..Min(n, |c|)];
    } else {
      assert c + [] == c;
    }
  }

  /** Keeping a prefix of the current game changes nothing earlier in the
      store. */
  lemma KeepCurrentPrefix(s: seq<Move>, n: nat, q: nat)
    requires q <= |s|
    ensures KeepCurrent(s, n)[..q] == KeepCurrent(s[..q], n)
  {
    forall p | 0 <= p < q
      ensures Rank(s, p) == Rank(s[..q], p)
    {
      assert s[..p] == s[..q][..p];
    }
  }

  /** Keeping the first `n` moves twice keeps the same store. */
  lemma KeepCurrentIdempotent(s: seq<Move>, n: nat)
    ensures KeepCurrent(KeepCurrent(s, n), n) == KeepCurrent(s, n)
  {
    var K := KeepCurrent(s, n);
    forall q | 0 <= q < |s| && K[q].isCurrentGame
      ensures Rank(K, q) < n
    {
      KeepCurrentPrefix(s, n, q);
      KeepCurrentFindsPrefix(s[..q], n);
    }
  }

  lemma KeepCurrentPreservesWellKeyed(s: seq<Move>, n: nat)
    requires WellKeyed(s)
    ensures WellKeyed(KeepCurrent(s, n))
  {
  }

  /** Keeping at least as many moves as the game has changes nothing. */
  lemma KeepAllIsNoOp(s: seq<Move>, n: nat)
    requires |CurrentGame(s)| <= n
    ensures KeepCurrent(s, n) == s
  {
    forall q | 0 <= q < |s| && s[q].isCurrentGame
      ensures Rank(s, q) < n
    {
      PositionOfRank(s, q);
    }
  }

  /** A move saved without an id joins the end of the current game. */
  lemma SaveNewMoveAppends(s: seq<Move>, m: Move)
    requires m.id.None? && m.isCurrentGame
    ensures CurrentGame(SaveTo(s, m).rows) == CurrentGame(s) + [SaveTo(s, m).move]
  {
    assert SaveTo(s, m).rows[..|s|] == s;
  }

  // ------------------------------------------------------------ messages

  const RESET_MESSAGE := "Reset Tic-Tac-Toe game by removing all existing moves."
  const NOT_CURRENT_MESSAGE := "The move (to be saved) is NOT of current game."

  /** `validateIndexOfMove` against the current game `cur`. */
  function IndexError(k: int, cur: seq<Move>): (r: Option<string>)
    ensures r.None? <==> 0 <= k < |cur|
  {
    if k < 0 then Some("The index " + IntToString(k) + " of the target move is negative.")
    else if k > |cur| - 1 then Some("The index " + IntToString(k) + " of the target move is too large.")
    else None
  }

  /** What `viewPrevMove` returns for the store `s`. */
  function PrevMove(s: seq<Move>, k: int): (r: Result<Move, string>)
    ensures r.Success? <==> 0 <= k < |CurrentGame(s)|
    ensures r.Success? ==> r.value == CurrentGame(s)[k]
  {
    match IndexError(k, CurrentGame(s))
    case Some(message) => Failure(message)
    case None => Success(CurrentGame(s)[k])
  }

  /** After reverting to move `k`, the moves up to `k` can still be viewed,
      each unchanged, and no later move can. */
  lemma ViewAfterRevert(s: seq<Move>, k: nat, i: int)
    requires k < |CurrentGame(s)|
    ensures 0 <= i <= k ==> PrevMove(KeepCurrent(s, k + 1), i) == Success(CurrentGame(s)[i])
    ensures k < i ==> PrevMove(KeepCurrent(s, k + 1), i).Failure?
  {
    KeepCurrentFindsPrefix(s, k + 1);
    var kept := CurrentGame(KeepCurrent(s, k + 1));
    assert kept == CurrentGame(s)[..k + 1];
    assert |kept| == k + 1;
    var r := PrevMove(KeepCurrent(s, k + 1), i);
    if 0 <= i <= k {
      assert kept[i] == CurrentGame(s)[i];
      assert r.Success?;
    } else {
      assert r.Failure?;
    }
  }

  /** After a reset no move of the current game is left. */
  lemma ResetLeavesNoCurrentMove(s: seq<Move>)
    ensures CurrentGame(KeepCurrent(s, 0)) == []
    ensures forall q :: 0 <= q < |s| ==> !KeepCurrent(s, 0)[q].isCurrentGame
  {
    KeepCurrentFindsPrefix(s, 0);
  }

  /** Travelling back to move `k` and then playing a new move gives the game
      made of moves `0..k` followed by the new one. */
  lemma RevertThenSave(s: seq<Move>, k: nat, m: Move)
    requires k < |CurrentGame(s)| && m.id.None? && m.isCurrentGame
    ensures var r := SaveTo(KeepCurrent(s, k + 1), m);
      CurrentGame(r.rows) == CurrentGame(s)[..k + 1] + [r.move]
  {
    KeepCurrentFindsPrefix(s, k + 1);
    SaveNewMoveAppends(KeepCurrent(s, k + 1), m);
  }

  // --------------------------------------------------------------- classes

  /** The JPA repository of moves. */
  class MoveRepository {
    var rows: seq<Move>

    ghost predicate Valid()
      reads this
    {
      WellKeyed(rows)
    }

    constructor ()
      ensures rows == [] && Valid()
    {
      rows := [];
    }

    method Save(m: Move) returns (saved: Move)
      requires Valid()
      modifies this
      ensures Valid()
      ensures SaveTo(old(rows), m) == Saved(rows, saved)
    {
      var r := SaveTo(rows, m);
      SavePreservesWellKeyed(rows, m);
      rows, saved := r.rows, r.move;
    }

    method FindByIsCurrentGame() returns (r: seq<Move>)
      ensures r == CurrentGame(rows)
    {
      r := CurrentGame(rows);
    }
  }

  /** `TicTacToeService`. */
  class TicTacToeService {
    const repository: MoveRepository

    constructor (repository: MoveRepository)
      ensures this.repository == repository
    {
      this.repository := repository;
    }

    /** `resetGame`: every move of the current game leaves it. */
    method ResetGame() returns (message: string)
      requires repository.Valid()
      modifies repository
      ensures repository.Valid()
      ensures repository.rows == KeepCurrent(old(repository.rows), 0)
      ensures message == RESET_MESSAGE
    {
      var prevMoves := repository.FindByIsCurrentGame();
      RemoveFromCurrentGameFrom(prevMoves, 0);
      message := RESET_MESSAGE;
    }

    /** The loop `resetGame` and `revertToPrevMove` share: each move of
        `currentGame` from index `n` on is taken out of the game and saved
        back to its own row. */
    method RemoveFromCurrentGameFrom(currentGame: seq<Move>, n: nat)
      requires repository.Valid() && currentGame == CurrentGame(repository.rows)
      requires n <= |currentGame|
      modifies repository
      ensures repository.Valid()
      ensures repository.rows == KeepCurrent(old(repository.rows), n)
    {
      ghost var s0 := repository.rows;
      ClearedNone(s0, n);
      var i := n;
      while i < |currentGame|
        invariant n <= i <= |currentGame|
        invariant repository.Valid()
        invariant repository.rows == Cleared(s0, n, i)
      {
        RemoveAt(s0, n, i);
        var saved := repository.Save(RemoveFromCurrentGame(currentGame[i]));
        i := i + 1;
      }
      ClearedAll(s0, n);
    }

    /** `saveMove`: only a move of the current game is saved. */
    method SaveMove(m: Move) returns (r: Result<Move, string>)
      requires repository.Valid()
      modifies repository
      ensures repository.Valid()
      ensures !m.isCurrentGame ==> r == Failure(NOT_CURRENT_MESSAGE) && repository.rows == old(repository.rows)
      ensures m.isCurrentGame ==> r.Success? && Saved(repository.rows, r.value) == SaveTo(old(repository.rows), m)
    {
      if !m.isCurrentGame {
        return Failure(NOT_CURRENT_MESSAGE);
      }
      var saved := repository.Save(m);
      return Success(saved);
    }

    /** `validateIndexOfMove`. */
    method ValidateIndexOfMove(k: int) returns (r: Option<string>)
      ensures r == IndexError(k, CurrentGame(repository.rows))
    {
      if k < 0 {
        return Some("The index " + IntToString(k) + " of the target move is negative.");
      }
      var currentGame := repository.FindByIsCurrentGame();
      if k > |currentGame| - 1 {
        return Some("The index " + IntToString(k) + " of the target move is too large.");
      }
      return None;
    }

    /** `viewPrevMove`: reads the store and changes nothing. */
    method ViewPrevMove(k: int) returns (r: Result<Move, string>)
      ensures r == PrevMove(repository.rows, k)
    {
      var invalid := ValidateIndexOfMove(k);
      if invalid.Some? {
        return Failure(invalid.value);
      }
      var currentGame := repository.FindByIsCurrentGame();
      return Success(currentGame[k]);
    }

    /** `revertToPrevMove`: the moves after move `k` leave the current game
        and move `k` is returned. */
    method RevertToPrevMove(k: int) returns (r: Result<Move, string>)
      requires repository.Valid()
      modifies repository
      ensures repository.Valid()
      ensures r == PrevMove(old(repository.rows), k)
      ensures r.Failure? ==> repository.rows == old(repository.rows)
      ensures r.Success? ==> repository.rows == KeepCurrent(old(repository.rows), k + 1)
    {
      var invalid := ValidateIndexOfMove(k);
      if invalid.Some? {
        return Failure(invalid.value);
      }
      var currentGame := repository.FindByIsCurrentGame();
      var newLastMove := currentGame[k];
      RemoveFromCurrentGameFrom(currentGame, k + 1);
      return Success(newLastMove);
    }
  }

  /** Saving the move of rank `t`, taken out of the game, is one step of
      `Cleared`: it lands on its own row. */
  lemma RemoveAt(s: seq<Move>, n: nat, t: nat)
    requires WellKeyed(s) && n <= t < |CurrentGame(s)|
    ensures SaveTo(Cleared(s, n, t), RemoveFromCurrentGame(CurrentGame(s)[t])).rows == Cleared(s, n, t + 1)
  {
    var p := Positions(s)[t];
    ClearStep(s, n, t);
    assert CurrentGame(s)[t] == s[p];
    assert SaveSlot(|s|, s[p].id) == p;
  }
}
