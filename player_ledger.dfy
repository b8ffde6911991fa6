/** The player ledger of `PlayerService` (boardgame), as functions of the
    stored rows: every operation yields its result (or the exception it
    throws) together with the rows afterwards. The ledger is meant to hold at
    most one non-deleted row per case-insensitive (first name, last name). */
module PlayerLedger {
  import opened Wrappers
  import opened JavaText
  import opened PlayerDomain
  import opened Repository

  // ------------------------------------------------------------- the store

  /** Row `k` carries the id the repository generated for it, `k + 1`. */
  predicate WellKeyed(rows: seq<Player>)
  {
    forall k :: 0 <= k < |rows| ==> rows[k].id == Some(k + 1)
  }

  /** The rows after a `save`, and the entity `save` returns. */
  datatype Saved = Saved(rows: seq<Player>, player: Player)

  /** `playerRepository.save(p)`. */
  function Save(rows: seq<Player>, p: Player): (s: Saved)
    ensures var k := SaveSlot(|rows|, p.id);
      && s.player == p.(id := Some(k + 1))
      && |s.rows| == (if k < |rows| then |rows| else |rows| + 1)
      && s.rows[k] == s.player
      && forall j :: 0 <= j < |rows| && j != k ==> s.rows[j] == rows[j]
  {
    var k := SaveSlot(|rows|, p.id);
    if k < |rows| then Saved(rows[k := p], p)
    else Saved(rows + [p.(id := Some(k + 1))], p.(id := Some(k + 1)))
  }

  lemma SavePreservesWellKeyed(rows: seq<Player>, p: Player)
    requires WellKeyed(rows)
    ensures WellKeyed(Save(rows, p).rows)
  {
    var s := Save(rows, p).rows;
    forall j | 0 <= j < |s|
      ensures s[j].id == Some(j + 1)
    {
      if j < |rows| && j != SaveSlot(|rows|, p.id) {
        assert s[j] == rows[j];
      }
    }
  }

  /** The query methods' filter: deletion flag as given, names equal up to case. */
  predicate Matches(row: Player, first: string, last: string, deleted: bool)
  {
    row.isDeleted == deleted && Lower(row.firstName) == Lower(first) && Lower(row.lastName) == Lower(last)
  }

  /** `findByFirstNameAndLastNameAllIgnoreCaseAndIsDeleted`, in store order. */
  function FindByName(rows: seq<Player>, first: string, last: string, deleted: bool): (r: seq<Player>)
    ensures |r| <= |rows|
    ensures forall x :: x in r ==> x in rows && Matches(x, first, last, deleted)
  {
    if rows == [] then []
    else (if Matches(rows[0], first, last, deleted) then [rows[0]] else [])
         + FindByName(rows[1..], first, last, deleted)
  }

  /** `findByIsDeleted`, in store order. */
  function FindByIsDeleted(rows: seq<Player>, deleted: bool): (r: seq<Player>)
    ensures |r| <= |rows|
    ensures forall x :: x in r ==> x in rows && x.isDeleted == deleted
  {
    if rows == [] then []
    else (if rows[0].isDeleted == deleted then [rows[0]] else []) + FindByIsDeleted(rows[1..], deleted)
  }

  lemma {:induction false} FindByNameEmpty(rows: seq<Player>, first: string, last: string, deleted: bool)
    ensures |FindByName(rows, first, last, deleted)| == 0
        <==> forall k :: 0 <= k < |rows| ==> !Matches(rows[k], first, last, deleted)
  {
    if rows != [] {
      FindByNameEmpty(rows[1..], first, last, deleted);
      assert forall k :: 1 <= k < |rows| ==> rows[k] == rows[1..][k - 1];
    }
  }

  /** The first row found is the first matching row of the store. */
  lemma {:induction false} FindByNameFirst(rows: seq<Player>, first: string, last: string, deleted: bool)
    returns (k: nat)
    requires |FindByName(rows, first, last, deleted)| > 0
    ensures k < |rows| && Matches(rows[k], first, last, deleted)
    ensures FindByName(rows, first, last, deleted)[0] == rows[k]
    ensures forall j :: 0 <= j < k ==> !Matches(rows[j], first, last, deleted)
  {
    if Matches(rows[0], first, last, deleted) {
      k := 0;
    } else {
      var k' := FindByNameFirst(rows[1..], first, last, deleted);
      k := k' + 1;
      forall j | 0 <= j < k
        ensures !Matches(rows[j], first, last, deleted)
      {
        if j > 0 {
          assert rows[j] == rows[1..][j - 1];
        }
      }
    }
  }

  /** Two matching rows are both found. */
  lemma {:induction false} FindByNameTwo(rows: seq<Player>, first: string, last: string, deleted: bool, i: nat, j: nat)
    requires i < j < |rows|
    requires Matches(rows[i], first, last, deleted) && Matches(rows[j], first, last, deleted)
    ensures |FindByName(rows, first, last, deleted)| >= 2
  {
    if i == 0 {
      assert rows[1..][j - 1] == rows[j];
      FindByNameEmpty(rows[1..], first, last, deleted);
    } else {
      assert rows[1..][i - 1] == rows[i] && rows[1..][j - 1] == rows[j];
      FindByNameTwo(rows[1..], first, last, deleted, i - 1, j - 1);
    }
  }

  /** At most one matching row is found at most once. */
  lemma {:induction false} FindByNameAtMostOne(rows: seq<Player>, first: string, last: string, deleted: bool)
    requires forall i, j :: 0 <= i < j < |rows| && Matches(rows[i], first, last, deleted)
               ==> !Matches(rows[j], first, last, deleted)
    ensures |FindByName(rows, first, last, deleted)| <= 1
  {
    if rows != [] {
      var tail := rows[1..];
      forall i, j | 0 <= i < j < |tail| && Matches(tail[i], first, last, deleted)
        ensures !Matches(tail[j], first, last, deleted)
      {
        assert tail[i] == rows[i + 1] && tail[j] == rows[j + 1];
      }
      FindByNameAtMostOne(tail, first, last, deleted);
      if Matches(rows[0], first, last, deleted) {
        forall k | 0 <= k < |tail|
          ensures !Matches(tail[k], first, last, deleted)
        {
          assert tail[k] == rows[k + 1];
        }
        FindByNameEmpty(tail, first, last, deleted);
      }
    }
  }

  // ------------------------------------------------------------ namesakes

  /** The non-deleted rows the service looks up for `p`. */
  function ActiveNamesakes(rows: seq<Player>, p: Player): seq<Player>
  {
    FindByName(rows, p.firstName, p.lastName, false)
  }

  predicate IsActiveNamesake(row: Player, p: Player)
  {
    Matches(row, p.firstName, p.lastName, false)
  }

  predicate HasActiveNamesake(rows: seq<Player>, p: Player)
  {
    exists k :: 0 <= k < |rows| && IsActiveNamesake(rows[k], p)
  }

  /** Row `k` is the only non-deleted row with `p`'s name. */
  predicate SoleActiveNamesake(rows: seq<Player>, p: Player, k: int)
  {
    && 0 <= k < |rows| && IsActiveNamesake(rows[k], p)
    && forall j :: 0 <= j < |rows| && j != k ==> !IsActiveNamesake(rows[j], p)
  }

  /** The ledger invariant: no two non-deleted rows share a name, up to case. */
  predicate UniqueActiveNames(rows: seq<Player>)
  {
    forall i, j :: 0 <= i < j < |rows| && !rows[i].isDeleted && !rows[j].isDeleted
      ==> !HaveSameName(rows[i], rows[j])
  }

  lemma NoActiveNamesakes(rows: seq<Player>, p: Player)
    ensures |ActiveNamesakes(rows, p)| == 0 <==> !HasActiveNamesake(rows, p)
  {
    FindByNameEmpty(rows, p.firstName, p.lastName, false);
  }

  lemma OneActiveNamesake(rows: seq<Player>, p: Player) returns (k: nat)
    requires |ActiveNamesakes(rows, p)| == 1
    ensures SoleActiveNamesake(rows, p, k) && ActiveNamesakes(rows, p)[0] == rows[k]
  {
    k := FindByNameFirst(rows, p.firstName, p.lastName, false);
    forall j | k < j < |rows|
      ensures !IsActiveNamesake(rows[j], p)
    {
      if IsActiveNamesake(rows[j], p) {
        FindByNameTwo(rows, p.firstName, p.lastName, false, k, j);
      }
    }
  }

  lemma SoleActiveNamesakeIsFound(rows: seq<Player>, p: Player, k: nat)
    requires SoleActiveNamesake(rows, p, k)
    ensures |ActiveNamesakes(rows, p)| == 1 && ActiveNamesakes(rows, p)[0] == rows[k]
  {
    NoActiveNamesakes(rows, p);
    FindByNameAtMostOne(rows, p.firstName, p.lastName, false);
    var k' := FindByNameFirst(rows, p.firstName, p.lastName, false);
  }

  /** Under the invariant a name is found at most once. */
  lemma UniqueFindsAtMostOne(rows: seq<Player>, p: Player)
    requires UniqueActiveNames(rows)
    ensures |ActiveNamesakes(rows, p)| <= 1
  {
    forall i, j | 0 <= i < j < |rows| && IsActiveNamesake(rows[i], p)
      ensures !IsActiveNamesake(rows[j], p)
    {
    }
    FindByNameAtMostOne(rows, p.firstName, p.lastName, false);
  }

  /** Saving a deleted row, or a row whose name no non-deleted row has, keeps
      the invariant. */
  lemma SaveKeepsUnique(rows: seq<Player>, p: Player)
    requires UniqueActiveNames(rows)
    requires p.isDeleted || !HasActiveNamesake(rows, p)
    ensures UniqueActiveNames(Save(rows, p).rows)
  {
    var s := Save(rows, p).rows;
    var k := SaveSlot(|rows|, p.id);
    forall i, j | 0 <= i < j < |s| && !s[i].isDeleted && !s[j].isDeleted
      ensures !HaveSameName(s[i], s[j])
    {
      if i == k {
        assert s[j] == rows[j] && !IsActiveNamesake(rows[j], p);
      } else if j == k {
        assert s[i] == rows[i] && !IsActiveNamesake(rows[i], p);
      } else {
        assert s[i] == rows[i] && s[j] == rows[j];
      }
    }
  }

  /** Saving the tombstone of the sole namesake, stored under its own id,
      leaves `p`'s name without any non-deleted row. */
  lemma TombstoneSoleNamesake(rows: seq<Player>, p: Player, k: nat)
    requires WellKeyed(rows) && SoleActiveNamesake(rows, p, k)
    ensures Save(rows, SetAsDeleted(rows[k])).rows == rows[k := SetAsDeleted(rows[k])]
    ensures !HasActiveNamesake(Save(rows, SetAsDeleted(rows[k])).rows, p)
  {
    var s := rows[k := SetAsDeleted(rows[k])];
    forall j | 0 <= j < |s|
      ensures !IsActiveNamesake(s[j], p)
    {
      if j != k {
        assert s[j] == rows[j];
      }
    }
  }

  // --------------------------------------------------------------- results

  /** Exceptions the service lets escape from library code. */
  datatype Fault = IllegalArgument | NullPointer | IndexOutOfBounds

  /** A `RuntimeException` the service throws with its own message, or an
      exception raised by code it calls. */
  datatype ServiceError = Rejected(message: string) | Thrown(fault: Fault)

  datatype Outcome<T> = Outcome(result: Result<T, ServiceError>, rows: seq<Player>)

  // --------------------------------------------------------------- create

  /** `validateCreatingPlayer`. */
  function CreateCheck(rows: seq<Player>, p: Player): Option<string>
  {
    if |ActiveNamesakes(rows, p)| > 0
    then Some("Player name " + FullName(p) + " (to be created) already exists in repo.")
    else None
  }

  /** `createPlayer`. */
  function Create(rows: seq<Player>, p: Player): Outcome<Player>
  {
    match CreateCheck(rows, p)
    case Some(msg) => Outcome(Failure(Rejected(msg)), rows)
    case None =>
      var s := Save(rows, p);
      Outcome(Success(s.player), s.rows)
  }

  /** Creating fails exactly when a non-deleted row has the name, and then
      writes nothing; otherwise it saves the given player, as a new last row
      when the player carries no id. */
  lemma CreateSpec(rows: seq<Player>, p: Player)
    ensures Create(rows, p).result.Failure? <==> HasActiveNamesake(rows, p)
    ensures HasActiveNamesake(rows, p) ==> Create(rows, p).rows == rows
    ensures !HasActiveNamesake(rows, p) ==> Create(rows, p).rows == Save(rows, p).rows
    ensures !HasActiveNamesake(rows, p) && p.id.None? ==>
      Create(rows, p).rows == rows + [p.(id := Some(|rows| + 1))]
  {
    NoActiveNamesakes(rows, p);
  }

  lemma CreateKeepsUnique(rows: seq<Player>, p: Player)
    requires UniqueActiveNames(rows)
    ensures UniqueActiveNames(Create(rows, p).rows)
  {
    NoActiveNamesakes(rows, p);
    if !HasActiveNamesake(rows, p) {
      SaveKeepsUnique(rows, p);
    }
  }

  // --------------------------------------------------------------- delete

  /** `validateDeletingPlayer`. */
  function DeleteCheck(rows: seq<Player>, p: Player): Option<string>
  {
    var copies := ActiveNamesakes(rows, p);
    if |copies| > 1 then
      Some("Player name " + FullName(p) + " has " + IntToString(|copies|) + " non-deleted copies in repo.")
    else if |copies| == 0 then
      Some("Player name " + FullName(p) + " (to be deleted) DNE in repo. ")
    else if !HaveSameData(copies[0], p) then
      Some("Player (to be deleted) DNE in repo:\n " + PlayerToString(p))
    else None
  }

  /** `deletePlayer`: tombstones the stored copy, not the argument. */
  function Delete(rows: seq<Player>, p: Player): Outcome<string>
  {
    match DeleteCheck(rows, p)
    case Some(msg) => Outcome(Failure(Rejected(msg)), rows)
    case None =>
      var target := ActiveNamesakes(rows, p)[0];
      Outcome(Success("Marked player " + FullName(p) + " as deleted in repo."),
              Save(rows, SetAsDeleted(target)).rows)
  }

  /** The delete check passes exactly when one non-deleted row has the name
      and it holds the same data as the argument. */
  lemma DeleteCheckSpec(rows: seq<Player>, p: Player)
    ensures DeleteCheck(rows, p).None? <==>
      exists k :: SoleActiveNamesake(rows, p, k) && HaveSameData(rows[k], p)
  {
    if DeleteCheck(rows, p).None? {
      var k := OneActiveNamesake(rows, p);
    }
    if exists k :: SoleActiveNamesake(rows, p, k) && HaveSameData(rows[k], p) {
      var k :| SoleActiveNamesake(rows, p, k) && HaveSameData(rows[k], p);
      SoleActiveNamesakeIsFound(rows, p, k);
    }
  }

  /** A successful delete raises the deletion flag of exactly the matched row
      (whatever the case of the names given) and leaves every other field
      and row as it was; a failed one writes nothing. */
  lemma DeleteSpec(rows: seq<Player>, p: Player, k: nat)
    requires WellKeyed(rows)
    ensures Delete(rows, p).result.Failure? ==> Delete(rows, p).rows == rows
    ensures SoleActiveNamesake(rows, p, k) && HaveSameData(rows[k], p) ==>
      Delete(rows, p).result.Success? && Delete(rows, p).rows == rows[k := SetAsDeleted(rows[k])]
  {
    if SoleActiveNamesake(rows, p, k) && HaveSameData(rows[k], p) {
      SoleActiveNamesakeIsFound(rows, p, k);
      TombstoneSoleNamesake(rows, p, k);
    }
  }

  /** Without a non-deleted namesake the delete fails with a message saying
      the player does not exist ("DNE"). */
  lemma DeleteMissingSaysDNE(rows: seq<Player>, p: Player)
    requires !HasActiveNamesake(rows, p)
    ensures Delete(rows, p).result.Failure? && Delete(rows, p).result.error.Rejected?
    ensures Includes(Delete(rows, p).result.error.message, "DNE")
  {
    NoActiveNamesakes(rows, p);
    var msg := Delete(rows, p).result.error.message;
    var i := |"Player name "| + |FullName(p)| + |" (to be deleted) "|;
    assert OccursAt(msg, "DNE", i);
  }

  /** A stale argument (same name, different data) is reported as not existing. */
  lemma DeleteStaleSaysDNE(rows: seq<Player>, p: Player, k: nat)
    requires SoleActiveNamesake(rows, p, k) && !HaveSameData(rows[k], p)
    ensures Delete(rows, p).result.Failure? && Delete(rows, p).result.error.Rejected?
    ensures Includes(Delete(rows, p).result.error.message, "DNE")
  {
    SoleActiveNamesakeIsFound(rows, p, k);
    var msg := Delete(rows, p).result.error.message;
    var i := |"Player (to be deleted) "|;
    assert OccursAt(msg, "DNE", i);
  }

  /** Deleting the same player a second time fails. */
  lemma DeleteTwiceFails(rows: seq<Player>, p: Player)
    requires WellKeyed(rows) && Delete(rows, p).result.Success?
    ensures Delete(Delete(rows, p).rows, p).result.Failure?
  {
    DeleteCheckSpec(rows, p);
    var k :| SoleActiveNamesake(rows, p, k) && HaveSameData(rows[k], p);
    DeleteSpec(rows, p, k);
    TombstoneSoleNamesake(rows, p, k);
    DeleteMissingSaysDNE(Delete(rows, p).rows, p);
  }

  lemma DeleteKeepsUnique(rows: seq<Player>, p: Player)
    requires UniqueActiveNames(rows)
    ensures UniqueActiveNames(Delete(rows, p).rows)
  {
    if DeleteCheck(rows, p).None? {
      SaveKeepsUnique(rows, SetAsDeleted(ActiveNamesakes(rows, p)[0]));
    }
  }

  // -------------------------------------------------------------- replace

  /** `replaceOldPlayerWithNewPlayer` as written: the tombstone saved is the
      caller's `oldPlayer`, so which row it lands on depends on the id the
      caller supplied. */
  function Replace(rows: seq<Player>, oldPlayer: Player, newPlayer: Player): Outcome<Player>
  {
    if HaveSameData(oldPlayer, newPlayer) then Outcome(Success(oldPlayer), rows)
    else match DeleteCheck(rows, oldPlayer)
      case Some(msg) => Outcome(Failure(Rejected(msg)), rows)
      case None =>
        var created := if HaveSameName(oldPlayer, newPlayer) then None else CreateCheck(rows, newPlayer);
        match created
        case Some(msg) => Outcome(Failure(Rejected(msg)), rows)
        case None =>
          var s1 := Save(rows, SetAsDeleted(oldPlayer));
          var s2 := Save(s1.rows, newPlayer);
          Outcome(Success(s2.player), s2.rows)
  }

  /** Replacing a player by one with the same data returns the old player and
      writes nothing. */
  lemma ReplaceSameDataIsNoOp(rows: seq<Player>, oldPlayer: Player, newPlayer: Player)
    requires HaveSameData(oldPlayer, newPlayer)
    ensures Replace(rows, oldPlayer, newPlayer) == Outcome(Success(oldPlayer), rows)
  {
  }

  /** Otherwise the replacement fails, writing nothing, exactly when the
      delete check fails for the old player or, for a new name, some
      non-deleted row already has the new name. */
  lemma ReplaceFailureSpec(rows: seq<Player>, oldPlayer: Player, newPlayer: Player)
    requires !HaveSameData(oldPlayer, newPlayer)
    ensures Replace(rows, oldPlayer, newPlayer).result.Failure? <==>
      || !(exists k :: SoleActiveNamesake(rows, oldPlayer, k) && HaveSameData(rows[k], oldPlayer))
      || (!HaveSameName(oldPlayer, newPlayer) && HasActiveNamesake(rows, newPlayer))
    ensures Replace(rows, oldPlayer, newPlayer).result.Failure? ==>
      Replace(rows, oldPlayer, newPlayer).rows == rows
  {
    DeleteCheckSpec(rows, oldPlayer);
    NoActiveNamesakes(rows, newPlayer);
  }

  /** When the old player carries the id of its stored copy, a replacement
      keeps the invariant. */
  lemma ReplaceKeepsUnique(rows: seq<Player>, oldPlayer: Player, newPlayer: Player)
    requires WellKeyed(rows) && UniqueActiveNames(rows)
    requires forall k :: 0 <= k < |rows| && IsActiveNamesake(rows[k], oldPlayer) ==> oldPlayer.id == rows[k].id
    ensures UniqueActiveNames(Replace(rows, oldPlayer, newPlayer).rows)
  {
    if !HaveSameData(oldPlayer, newPlayer) && DeleteCheck(rows, oldPlayer).None?
       && (HaveSameName(oldPlayer, newPlayer) || CreateCheck(rows, newPlayer).None?)
    {
      DeleteCheckSpec(rows, oldPlayer);
      var k :| SoleActiveNamesake(rows, oldPlayer, k) && HaveSameData(rows[k], oldPlayer);
      var t := SetAsDeleted(oldPlayer);
      var s1 := Save(rows, t).rows;
      assert s1 == rows[k := t];
      SaveKeepsUnique(rows, t);
      forall j | 0 <= j < |s1|
        ensures !IsActiveNamesake(s1[j], newPlayer)
      {
        if j != k {
          assert s1[j] == rows[j];
          if !HaveSameName(oldPlayer, newPlayer) {
            NoActiveNamesakes(rows, newPlayer);
          }
        }
      }
      SaveKeepsUnique(s1, newPlayer);
    }
  }

  /** Without that id the stored copy stays active next to the new player:
      replacing a nickname with an id-less old player leaves two non-deleted
      rows with one name. */
  lemma ReplaceWithoutIdBreaksUnique()
    ensures var rows := [Player(Some(1), "Ada", "Lovelace", Some(""), 0, 0, 0, false)];
      var oldPlayer := rows[0].(id := None);
      var newPlayer := oldPlayer.(nickName := Some("Countess"));
      && WellKeyed(rows) && UniqueActiveNames(rows)
      && Replace(rows, oldPlayer, newPlayer).result.Success?
      && !UniqueActiveNames(Replace(rows, oldPlayer, newPlayer).rows)
  {
    var rows := [Player(Some(1), "Ada", "Lovelace", Some(""), 0, 0, 0, false)];
    var oldPlayer := rows[0].(id := None);
    var newPlayer := oldPlayer.(nickName := Some("Countess"));
    SoleActiveNamesakeIsFound(rows, oldPlayer, 0);
    var after := Replace(rows, oldPlayer, newPlayer).rows;
    assert after[0] == rows[0] && after[2] == newPlayer.(id := Some(3));
    assert HaveSameName(after[0], after[2]);
  }

  // ----------------------------------------------------------- saveRecord

  /** A single-game record: no counter negative and the counters summing to
      one, summed without overflow. */
  predicate IsSingleGameRecord(p: Player)
  {
    && p.numTicTacToeWin >= 0 && p.numTicTacToeLoss >= 0 && p.numTicTacToeDraw >= 0
    && p.numTicTacToeWin + p.numTicTacToeLoss + p.numTicTacToeDraw == 1
  }

  /** The check of `validateSingleGameRecord` as written: the sum is taken in
      32-bit `int` arithmetic. */
  predicate IsSingleGameRecordAsWritten(p: Player)
  {
    && p.numTicTacToeWin >= 0 && p.numTicTacToeLoss >= 0 && p.numTicTacToeDraw >= 0
    && Wrap32(Wrap32(p.numTicTacToeWin + p.numTicTacToeLoss) + p.numTicTacToeDraw) == 1
  }

  /** A single-game record is a win, a loss or a draw: one counter is one and
      the others are zero. */
  lemma SingleGameRecordIsOneOutcome(p: Player)
    ensures IsSingleGameRecord(p) <==>
      || (p.numTicTacToeWin == 1 && p.numTicTacToeLoss == 0 && p.numTicTacToeDraw == 0)
      || (p.numTicTacToeWin == 0 && p.numTicTacToeLoss == 1 && p.numTicTacToeDraw == 0)
      || (p.numTicTacToeWin == 0 && p.numTicTacToeLoss == 0 && p.numTicTacToeDraw == 1)
  {
  }

  /** On `Integer` counters the check as written also accepts records whose
      true sum is 2^32 + 1, and only those besides the single-game ones. */
  lemma SingleGameRecordAsWrittenOverflows(p: Player)
    requires IsInt32(p.numTicTacToeWin) && IsInt32(p.numTicTacToeLoss) && IsInt32(p.numTicTacToeDraw)
    ensures IsSingleGameRecordAsWritten(p) <==>
      IsSingleGameRecord(p)
      || (&& p.numTicTacToeWin >= 0 && p.numTicTacToeLoss >= 0 && p.numTicTacToeDraw >= 0
          && p.numTicTacToeWin + p.numTicTacToeLoss + p.numTicTacToeDraw == TWO_32 + 1)
  {
    var w, l, d := p.numTicTacToeWin, p.numTicTacToeLoss, p.numTicTacToeDraw;
    if w >= 0 && l >= 0 && d >= 0 {
      var a := Wrap32(w + l);
      assert a == w + l || a == w + l - TWO_32;
      var b := Wrap32(a + d);
      assert b == a + d || b == a + d - TWO_32;
    }
  }

  /** The record that wins and loses `Integer.MAX_VALUE` times and draws three
      times passes the check as written. */
  lemma SingleGameRecordAsWrittenCounterexample()
    ensures var p := DefaultPlayer().(numTicTacToeWin := INT_MAX, numTicTacToeLoss := INT_MAX, numTicTacToeDraw := 3);
      IsSingleGameRecordAsWritten(p) && !IsSingleGameRecord(p)
  {
    var p := DefaultPlayer().(numTicTacToeWin := INT_MAX, numTicTacToeLoss := INT_MAX, numTicTacToeDraw := 3);
    assert Wrap32(INT_MAX + INT_MAX) == -2;
  }

  /** The overflow guard of `validateSavingRecord`: the counter the record
      increments must not already be `Integer.MAX_VALUE`. */
  function OverflowCheck(existing: Player, p: Player): Option<string>
  {
    if p.numTicTacToeWin == 1 && existing.numTicTacToeWin == INT_MAX then
      Some("Unable to increase # of wins because player won too many (> " + IntToString(INT_MAX) + ") times")
    else if p.numTicTacToeDraw == 1 && existing.numTicTacToeDraw == INT_MAX then
      Some("Unable to increase # of draws because player drew too many (> " + IntToString(INT_MAX) + ") times")
    else if p.numTicTacToeLoss == 1 && existing.numTicTacToeLoss == INT_MAX then
      Some("Unable to increase # of losses because player lost too many (> " + IntToString(INT_MAX) + ") times")
    else None
  }

  /** `validateSavingRecord`, with the single-game check summing exactly. */
  function SaveRecordCheck(rows: seq<Player>, p: Player): Option<string>
  {
    var copies := ActiveNamesakes(rows, p);
    if !IsSingleGameRecord(p) then
      Some("Player " + FullName(p) + " has invalid single-game record. ")
    else if |copies| > 1 then
      Some("Player " + FullName(p) + " has " + IntToString(|copies|) + " (> 1) non-deleted copies in repo.")
    else if |copies| == 1 then OverflowCheck(copies[0], p)
    else None
  }

  /** The nickname kept by a merge: the stored one unless it is blank after trimming. */
  function MergedNickName(existing: string, submitted: Option<string>): Option<string>
  {
    if |JavaTrim(existing)| > 0 then Some(existing) else submitted
  }

  /** The new row: the submitted names, the given nickname and counters, no
      id and not deleted. */
  function NewRecord(p: Player, nick: Option<string>, draws: int, losses: int, wins: int): Player
  {
    Player(None, p.firstName, p.lastName, nick, draws, losses, wins, false)
  }

  /** `saveRecord`: the stored copy (if any) is tombstoned and a new row with
      the merged counters appended. */
  function SaveRecord(rows: seq<Player>, p: Player): Outcome<string>
  {
    match SaveRecordCheck(rows, p)
    case Some(msg) => Outcome(Failure(Rejected(msg)), rows)
    case None =>
      var copies := ActiveNamesakes(rows, p);
      if |copies| == 0 then
        var s := Save(rows, NewRecord(p, p.nickName, p.numTicTacToeDraw, p.numTicTacToeLoss, p.numTicTacToeWin));
        Outcome(Success("Saved the record of player " + FullName(s.player) + "."), s.rows)
      else
        var e := copies[0];
        match e.nickName
        case None => Outcome(Failure(Thrown(NullPointer)), rows)
        case Some(stored) =>
          var s1 := Save(rows, SetAsDeleted(e));
          var s2 := Save(s1.rows, NewRecord(p, MergedNickName(stored, p.nickName),
                                            Wrap32(p.numTicTacToeDraw + e.numTicTacToeDraw),
                                            Wrap32(p.numTicTacToeLoss + e.numTicTacToeLoss),
                                            Wrap32(p.numTicTacToeWin + e.numTicTacToeWin)));
          Outcome(Success("Saved the record of player " + FullName(s2.player) + "."), s2.rows)
  }

  /** The record's counter that is one already stands at `Integer.MAX_VALUE`. */
  predicate CounterAtMax(existing: Player, p: Player)
  {
    || (p.numTicTacToeWin == 1 && existing.numTicTacToeWin == INT_MAX)
    || (p.numTicTacToeDraw == 1 && existing.numTicTacToeDraw == INT_MAX)
    || (p.numTicTacToeLoss == 1 && existing.numTicTacToeLoss == INT_MAX)
  }

  /** `saveRecord` rejects, writing nothing, a record that is not a single
      game, a name with several non-deleted copies and a counter that would
      pass `Integer.MAX_VALUE`. */
  lemma SaveRecordRejects(rows: seq<Player>, p: Player, k: nat)
    ensures SaveRecord(rows, p).result.Failure? ==> SaveRecord(rows, p).rows == rows
    ensures !IsSingleGameRecord(p) ==> SaveRecord(rows, p).result.Failure?
    ensures (exists i, j :: 0 <= i < j < |rows| && IsActiveNamesake(rows[i], p) && IsActiveNamesake(rows[j], p))
      ==> SaveRecord(rows, p).result.Failure?
    ensures SoleActiveNamesake(rows, p, k) && CounterAtMax(rows[k], p) ==> SaveRecord(rows, p).result.Failure?
  {
    if exists i, j :: 0 <= i < j < |rows| && IsActiveNamesake(rows[i], p) && IsActiveNamesake(rows[j], p) {
      var i, j :| 0 <= i < j < |rows| && IsActiveNamesake(rows[i], p) && IsActiveNamesake(rows[j], p);
      FindByNameTwo(rows, p.firstName, p.lastName, false, i, j);
    }
    if SoleActiveNamesake(rows, p, k) {
      SoleActiveNamesakeIsFound(rows, p, k);
    }
  }

  /** With no non-deleted copy, a valid record is appended as it is. */
  lemma SaveRecordFirstGame(rows: seq<Player>, p: Player)
    requires !HasActiveNamesake(rows, p) && IsSingleGameRecord(p)
    ensures SaveRecord(rows, p).result.Success?
    ensures SaveRecord(rows, p).rows == rows +
      [Player(Some(|rows| + 1), p.firstName, p.lastName, p.nickName,
              p.numTicTacToeDraw, p.numTicTacToeLoss, p.numTicTacToeWin, false)]
  {
    NoActiveNamesakes(rows, p);
  }

  /** With one non-deleted copy, that row is tombstoned and a new active row
      appended whose counters add the record to the copy's, whose nickname is
      the copy's unless blank, and which keeps the submitted names. No counter
      wraps when the stored counters are non-negative `Integer`s. */
  lemma SaveRecordMerges(rows: seq<Player>, p: Player, k: nat)
    requires WellKeyed(rows) && SoleActiveNamesake(rows, p, k)
    requires IsSingleGameRecord(p) && !CounterAtMax(rows[k], p) && rows[k].nickName.Some?
    ensures var e := rows[k];
      && SaveRecord(rows, p).result.Success?
      && SaveRecord(rows, p).rows == rows[k := SetAsDeleted(e)] +
           [Player(Some(|rows| + 1), p.firstName, p.lastName,
                   MergedNickName(e.nickName.value, p.nickName),
                   Wrap32(p.numTicTacToeDraw + e.numTicTacToeDraw),
                   Wrap32(p.numTicTacToeLoss + e.numTicTacToeLoss),
                   Wrap32(p.numTicTacToeWin + e.numTicTacToeWin), false)]
    ensures var e := rows[k];
      0 <= e.numTicTacToeDraw <= INT_MAX && 0 <= e.numTicTacToeLoss <= INT_MAX && 0 <= e.numTicTacToeWin <= INT_MAX ==>
      && Wrap32(p.numTicTacToeDraw + e.numTicTacToeDraw) == p.numTicTacToeDraw + e.numTicTacToeDraw
      && Wrap32(p.numTicTacToeLoss + e.numTicTacToeLoss) == p.numTicTacToeLoss + e.numTicTacToeLoss
      && Wrap32(p.numTicTacToeWin + e.numTicTacToeWin) == p.numTicTacToeWin + e.numTicTacToeWin
  {
    SoleActiveNamesakeIsFound(rows, p, k);
    TombstoneSoleNamesake(rows, p, k);
  }

  lemma SaveRecordKeepsUnique(rows: seq<Player>, p: Player)
    requires WellKeyed(rows) && UniqueActiveNames(rows)
    ensures UniqueActiveNames(SaveRecord(rows, p).rows)
  {
    if SaveRecordCheck(rows, p).None? {
      var copies := ActiveNamesakes(rows, p);
      if |copies| == 0 {
        NoActiveNamesakes(rows, p);
        SaveKeepsUnique(rows, NewRecord(p, p.nickName, p.numTicTacToeDraw, p.numTicTacToeLoss, p.numTicTacToeWin));
      } else if copies[0].nickName.Some? {
        var k := OneActiveNamesake(rows, p);
        var e := rows[k];
        TombstoneSoleNamesake(rows, p, k);
        var s1 := Save(rows, SetAsDeleted(e)).rows;
        SaveKeepsUnique(rows, SetAsDeleted(e));
        var n := NewRecord(p, MergedNickName(e.nickName.value, p.nickName),
                           Wrap32(p.numTicTacToeDraw + e.numTicTacToeDraw),
                           Wrap32(p.numTicTacToeLoss + e.numTicTacToeLoss),
                           Wrap32(p.numTicTacToeWin + e.numTicTacToeWin));
        assert forall j :: 0 <= j < |s1| ==> (IsActiveNamesake(s1[j], n) <==> IsActiveNamesake(s1[j], p));
        SaveKeepsUnique(s1, n);
      }
    }
  }

  // ---------------------------------------------------------- getPlayerRepo

  /** A page of players: its content, its number and size, and the number of
      elements of the whole list. */
  datatype Page = Page(content: seq<Player>, number: int, size: int, totalElements: nat)

  /** `(int) Math.ceil((double) n / size)`. For a positive size the quotient
      of two `int`s is never rounded across an integer, so this is integer
      ceiling division; for size zero `n / 0` is NaN (cast to 0) when `n` is 0
      and +Infinity (cast to `Integer.MAX_VALUE`) otherwise. */
  function TotalPages(n: nat, size: nat): int
  {
    if size == 0 then (if n == 0 then 0 else INT_MAX) else (n + size - 1) / size
  }

  lemma {:induction false} MulMonotone(d: nat, x: nat, y: nat)
    requires x <= y
    ensures d * x <= d * y
  {
    if x < y {
      MulMonotone(d, x, y - 1);
      assert d * y == d * (y - 1) + d;
    }
  }

  /** `page` is below the number of pages exactly when the page starts
      inside the list. */
  lemma PageIsInside(n: nat, size: nat, page: nat)
    requires size >= 1
    ensures page < TotalPages(n, size) <==> size * page < n
  {
    var a := n + size - 1;
    var q := a / size;
    assert a == size * q + a % size;
    if page < q {
      MulMonotone(size, page + 1, q);
      assert size * (page + 1) == size * page + size;
    } else {
      MulMonotone(size, q, page);
      assert size * (q + 1) == size * q + size;
    }
  }

  /** `getPageFromListAndPageable` with exact arithmetic: the elements from
      `size * page` up to the start of the next page or the end of the list. */
  function GetPageFromList(players: seq<Player>, page: nat, size: nat): (r: seq<Player>)
    requires size >= 1 && size * page < |players|
    ensures |r| <= size
  {
    var next := size * (page + 1);
    assert next == size * page + size;
    players[size * page .. if next < |players| then next else |players|]
  }

  /** `getPageFromListAndPageable` as written: the start of the next page is
      computed in 32-bit `int` arithmetic and `subList` rejects a negative or
      inverted range. */
  function GetPageFromListAsWritten(players: seq<Player>, page: int, size: int): Result<seq<Player>, Fault>
  {
    var from := Wrap32(size * page);
    var next := Wrap32(size * (page + 1));
    var to := if |players| < next then |players| else next;
    if from < 0 || to > |players| then Failure(IndexOutOfBounds)
    else if from > to then Failure(IllegalArgument)
    else Success(players[from..to])
  }

  /** Both agree wherever the end of the page fits in an `int`. */
  lemma PageFromListAsWrittenAgrees(players: seq<Player>, page: nat, size: nat)
    requires size >= 1 && size * page < |players| && size * (page + 1) <= INT_MAX
    ensures GetPageFromListAsWritten(players, page, size) == Success(GetPageFromList(players, page, size))
  {
    MulMonotone(size, page, page + 1);
  }

  /** Asking for the second page of 2^30 elements of a list of 2^30 + 1
      players makes the end of the page wrap to a negative index, so the
      page as written throws while the exact page holds the last player. */
  lemma PageFromListAsWrittenCounterexample(players: seq<Player>)
    requires |players| == 0x4000_0001
    ensures GetPageFromListAsWritten(players, 1, 0x4000_0000).Failure?
    ensures GetPageFromList(players, 1, 0x4000_0000) == [players[0x4000_0000]]
    ensures 1 < TotalPages(|players|, 0x4000_0000)
  {
    assert Wrap32(0x4000_0000 * 2) == INT_MIN;
  }

  /** `getPlayerRepo`: a page of the non-deleted players, in store order. The
      sort parameter is only checked by Spring's `Sort.by` (a property without
      text is rejected); the list is not sorted by it. */
  function GetPlayerRepo(rows: seq<Player>, page: int, size: int, sortBy: string): Result<Page, ServiceError>
  {
    var players := FindByIsDeleted(rows, false);
    var n := |players|;
    if page < 0 then Failure(Rejected("page number is negative: " + IntToString(page)))
    else if size < 0 then Failure(Rejected("page size is negative: " + IntToString(size)))
    else if page >= TotalPages(n, size) then
      Failure(Rejected("page number " + IntToString(page) + " (with size = " + IntToString(size)
                       + ") is too large; total element is " + IntToString(n)))
    else if !HasText(sortBy) then Failure(Thrown(IllegalArgument))
    else if size < 1 then Failure(Thrown(IllegalArgument))
    else
      PageIsInside(n, size, page);
      Success(Page(GetPageFromList(players, page, size), page, size, n))
  }

  /** A page is served exactly for a non-negative page number, a positive size
      and a page starting inside the list of non-deleted players (so never for
      an empty list), with a sort property that has text; it holds the
      elements `[size * page, min(n, size * (page + 1)))` of that list. */
  lemma GetPlayerRepoSpec(rows: seq<Player>, page: int, size: int, sortBy: string)
    ensures var n := |FindByIsDeleted(rows, false)|;
      GetPlayerRepo(rows, page, size, sortBy).Success? <==>
        0 <= page && 1 <= size && size * page < n && HasText(sortBy)
    ensures var players := FindByIsDeleted(rows, false);
      GetPlayerRepo(rows, page, size, sortBy).Success? ==>
        && 0 <= size * page <= size * (page + 1)
        && GetPlayerRepo(rows, page, size, sortBy).value.content ==
             players[size * page .. if size * (page + 1) < |players| then size * (page + 1) else |players|]
    ensures page < 0 || size < 0 ==>
      GetPlayerRepo(rows, page, size, sortBy).Failure? && GetPlayerRepo(rows, page, size, sortBy).error.Rejected?
  {
    var n := |FindByIsDeleted(rows, false)|;
    if 0 <= page && 1 <= size {
      PageIsInside(n, size, page);
      MulMonotone(size, page, page + 1);
    }
  }
}
