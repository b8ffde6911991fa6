/** `PlayerService` (boardgame) and its repository as objects: the service
    methods look rows up and save them one step at a time, as the service
    does, and each is proved to leave the repository in the state the
    ledger functions of `PlayerLedger` describe. */
module PlayerCrud {
  import opened Wrappers
  import opened JavaText
  import opened PlayerDomain
  import opened PlayerLedger

  /** The JPA repository of players. */
  class PlayerRepository {
    var rows: seq<Player>

    ghost predicate Valid()
      reads this
    {
      WellKeyed(rows)
    }

    constructor ()
      ensures rows == [] && Valid()
    {
      rows := [];
    }

    method Save(p: Player) returns (saved: Player)
      requires Valid()
      modifies this
      ensures Valid()
      ensures PlayerLedger.Save(old(rows), p) == Saved(rows, saved)
    {
      var s := PlayerLedger.Save(rows, p);
      SavePreservesWellKeyed(rows, p);
      rows, saved := s.rows, s.player;
    }

    method FindByFirstNameAndLastNameAllIgnoreCaseAndIsDeleted(first: string, last: string, deleted: bool)
      returns (r: seq<Player>)
      ensures r == FindByName(rows, first, last, deleted)
    {
      r := FindByName(rows, first, last, deleted);
    }

    method FindByIsDeleted(deleted: bool) returns (r: seq<Player>)
      ensures r == PlayerLedger.FindByIsDeleted(rows, deleted)
    {
      r := PlayerLedger.FindByIsDeleted(rows, deleted);
    }
  }

  class PlayerService {
    const repository: PlayerRepository

    constructor (repository: PlayerRepository)
      ensures this.repository == repository
    {
      this.repository := repository;
    }

    /** `getPlayerRepo`: reads the store and changes nothing. */
    method GetPlayerRepo(page: int, size: int, sortBy: string) returns (r: Result<Page, ServiceError>)
      ensures r == PlayerLedger.GetPlayerRepo(repository.rows, page, size, sortBy)
    {
      var players := repository.FindByIsDeleted(false);
      if page < 0 {
        return Failure(Rejected("page number is negative: " + IntToString(page)));
      }
      if size < 0 {
        return Failure(Rejected("page size is negative: " + IntToString(size)));
      }
      var totalPages := TotalPages(|players|, size);
      if page >= totalPages {
        return Failure(Rejected("page number " + IntToString(page) + " (with size = " + IntToString(size)
                                + ") is too large; total element is " + IntToString(|players|)));
      }
      // `Sort.by` and `PageRequest.of` reject a blank property and a zero size.
      if !HasText(sortBy) || size < 1 {
        return Failure(Thrown(IllegalArgument));
      }
      PageIsInside(|players|, size, page);
      var content := GetPageFromList(players, page, size);
      return Success(Page(content, page, size, |players|));
    }

    /** `validateCreatingPlayer`. */
    method ValidateCreatingPlayer(p: Player) returns (error: Option<string>)
      ensures error == CreateCheck(repository.rows, p)
    {
      var nonDeletedCopies := repository.FindByFirstNameAndLastNameAllIgnoreCaseAndIsDeleted(p.firstName, p.lastName, false);
      if |nonDeletedCopies| > 0 {
        return Some("Player name " + FullName(p) + " (to be created) already exists in repo.");
      }
      return None;
    }

    /** `createPlayer`. */
    method CreatePlayer(p: Player) returns (r: Result<Player, ServiceError>)
      requires repository.Valid()
      modifies repository
      ensures repository.Valid()
      ensures Outcome(r, repository.rows) == Create(old(repository.rows), p)
      ensures old(UniqueActiveNames(repository.rows)) ==> UniqueActiveNames(repository.rows)
    {
      ghost var rows0 := repository.rows;
      var invalid := ValidateCreatingPlayer(p);
      if invalid.Some? {
        return Failure(Rejected(invalid.value));
      }
      var savedPlayer := repository.Save(p);
      if UniqueActiveNames(rows0) {
        CreateKeepsUnique(rows0, p);
      }
      return Success(savedPlayer);
    }

    /** `validateDeletingPlayer`. */
    method ValidateDeletingPlayer(p: Player) returns (error: Option<string>)
      ensures error == DeleteCheck(repository.rows, p)
    {
      var nonDeletedCopies := repository.FindByFirstNameAndLastNameAllIgnoreCaseAndIsDeleted(p.firstName, p.lastName, false);
      if |nonDeletedCopies| > 1 {
        error := Some("Player name " + FullName(p) + " has " + IntToString(|nonDeletedCopies|)
                      + " non-deleted copies in repo.");
      } else if |nonDeletedCopies| == 0 {
        error := Some("Player name " + FullName(p) + " (to be deleted) DNE in repo. ");
      } else {
        var targetInRepo := nonDeletedCopies[0];
        error := None;
        if !HaveSameData(targetInRepo, p) {
          error := Some("Player (to be deleted) DNE in repo:\n " + PlayerToString(p));
        }
      }
    }

    /** `deletePlayer`: the stored copy found by name is tombstoned. */
    method DeletePlayer(p: Player) returns (r: Result<string, ServiceError>)
      requires repository.Valid()
      modifies repository
      ensures repository.Valid()
      ensures Outcome(r, repository.rows) == Delete(old(repository.rows), p)
      ensures old(UniqueActiveNames(repository.rows)) ==> UniqueActiveNames(repository.rows)
    {
      ghost var rows0 := repository.rows;
      var invalid := ValidateDeletingPlayer(p);
      if invalid.Some? {
        return Failure(Rejected(invalid.value));
      }
      var nonDeletedCopies := repository.FindByFirstNameAndLastNameAllIgnoreCaseAndIsDeleted(p.firstName, p.lastName, false);
      var playerToBeDeleted := SetAsDeleted(nonDeletedCopies[0]);
      var saved := repository.Save(playerToBeDeleted);
      if UniqueActiveNames(rows0) {
        DeleteKeepsUnique(rows0, p);
      }
      return Success("Marked player " + FullName(p) + " as deleted in repo.");
    }

    /** `replaceOldPlayerWithNewPlayer`: the caller's `oldPlayer` is
        tombstoned, then `newPlayer` saved. The invariant is kept when the
        old player carries the id of its stored copy. */
    method ReplaceOldPlayerWithNewPlayer(oldPlayer: Player, newPlayer: Player) returns (r: Result<Player, ServiceError>)
      requires repository.Valid()
      modifies repository
      ensures repository.Valid()
      ensures Outcome(r, repository.rows) == Replace(old(repository.rows), oldPlayer, newPlayer)
      ensures old(UniqueActiveNames(repository.rows))
        && (forall k :: 0 <= k < |old(repository.rows)| && IsActiveNamesake(old(repository.rows)[k], oldPlayer)
              ==> oldPlayer.id == old(repository.rows)[k].id)
        ==> UniqueActiveNames(repository.rows)
    {
      ghost var rows0 := repository.rows;
      if HaveSameData(oldPlayer, newPlayer) {
        return Success(oldPlayer);
      }
      var invalid := ValidateDeletingPlayer(oldPlayer);
      if invalid.Some? {
        return Failure(Rejected(invalid.value));
      }
      if !HaveSameName(oldPlayer, newPlayer) {
        invalid := ValidateCreatingPlayer(newPlayer);
        if invalid.Some? {
          return Failure(Rejected(invalid.value));
        }
      }
      var tombstone := repository.Save(SetAsDeleted(oldPlayer));
      var savedNewPlayer := repository.Save(newPlayer);
      if UniqueActiveNames(rows0)
         && forall k :: 0 <= k < |rows0| && IsActiveNamesake(rows0[k], oldPlayer) ==> oldPlayer.id == rows0[k].id
      {
        ReplaceKeepsUnique(rows0, oldPlayer, newPlayer);
      }
      return Success(savedNewPlayer);
    }

    /** `validateSavingRecord`, with the single-game check of
        `validateSingleGameRecord` summing without overflow. */
    method ValidateSavingRecord(p: Player) returns (error: Option<string>)
      ensures error == SaveRecordCheck(repository.rows, p)
    {
      var wins, losses, draws := p.numTicTacToeWin, p.numTicTacToeLoss, p.numTicTacToeDraw;
      var isRecordValid := wins >= 0 && losses >= 0 && draws >= 0 && wins + losses + draws == 1;
      if !isRecordValid {
        return Some("Player " + FullName(p) + " has invalid single-game record. ");
      }
      var nonDeletedCopies := repository.FindByFirstNameAndLastNameAllIgnoreCaseAndIsDeleted(p.firstName, p.lastName, false);
      if |nonDeletedCopies| > 1 {
        return Some("Player " + FullName(p) + " has " + IntToString(|nonDeletedCopies|)
                    + " (> 1) non-deleted copies in repo.");
      }
      error := None;
      if |nonDeletedCopies| == 1 {
        error := OverflowCheck(nonDeletedCopies[0], p);
      }
    }

    /** `saveRecord`: the stored copy, if any, is tombstoned and a new row
        carrying the merged record saved. */
    method SaveRecord(p: Player) returns (r: Result<string, ServiceError>)
      requires repository.Valid()
      modifies repository
      ensures repository.Valid()
      ensures Outcome(r, repository.rows) == PlayerLedger.SaveRecord(old(repository.rows), p)
      ensures old(UniqueActiveNames(repository.rows)) ==> UniqueActiveNames(repository.rows)
    {
      ghost var rows0 := repository.rows;
      ghost var expected := PlayerLedger.SaveRecord(rows0, p);
      var invalid := ValidateSavingRecord(p);
      if invalid.Some? {
        return Failure(Rejected(invalid.value));
      }
      var wins, losses, draws, nickName := p.numTicTacToeWin, p.numTicTacToeLoss, p.numTicTacToeDraw, p.nickName;
      var existingCopies := repository.FindByFirstNameAndLastNameAllIgnoreCaseAndIsDeleted(p.firstName, p.lastName, false);
      if |existingCopies| > 0 {
        var merged;
        merged, nickName, draws, losses, wins := MergeWithExistingCopy(p, existingCopies[0]);
        if !merged {
          return Failure(Thrown(NullPointer));
        }
        SaveRecordMergedRows(rows0, p, nickName, draws, losses, wins);
      } else {
        assert expected.rows == PlayerLedger.Save(rows0, NewRecord(p, nickName, draws, losses, wins)).rows;
      }
      var newCopy := NewRecord(p, nickName, draws, losses, wins);
      var savedNewCopy := repository.Save(newCopy);
      SaveRecordKeepsUniqueIf(rows0, p);
      return Success("Saved the record of player " + FullName(savedNewCopy) + ".");
    }

    /** The merge step of `saveRecord`: the counters of the stored copy `e`
        are added to the record's, its nickname kept unless blank, and the
        copy tombstoned. A `null` stored nickname throws before anything is
        saved. */
    method MergeWithExistingCopy(p: Player, e: Player)
      returns (merged: bool, nickName: Option<string>, draws: int, losses: int, wins: int)
      requires repository.Valid()
      modifies repository
      ensures repository.Valid()
      ensures merged <==> e.nickName.Some?
      ensures !merged ==> repository.rows == old(repository.rows)
      ensures merged ==>
        && repository.rows == PlayerLedger.Save(old(repository.rows), SetAsDeleted(e)).rows
        && nickName == MergedNickName(e.nickName.value, p.nickName)
        && draws == Wrap32(p.numTicTacToeDraw + e.numTicTacToeDraw)
        && losses == Wrap32(p.numTicTacToeLoss + e.numTicTacToeLoss)
        && wins == Wrap32(p.numTicTacToeWin + e.numTicTacToeWin)
    {
      wins := Wrap32(p.numTicTacToeWin + e.numTicTacToeWin);
      losses := Wrap32(p.numTicTacToeLoss + e.numTicTacToeLoss);
      draws := Wrap32(p.numTicTacToeDraw + e.numTicTacToeDraw);
      nickName := p.nickName;
      if e.nickName.None? {
        return false, nickName, draws, losses, wins;
      }
      if |JavaTrim(e.nickName.value)| > 0 {
        nickName := e.nickName;
      }
      var tombstone := repository.Save(SetAsDeleted(e));
      merged := true;
    }
  }

  /** The store `saveRecord` leaves after merging with the stored copy: the
      copy tombstoned, then the merged record appended. */
  lemma SaveRecordMergedRows(rows: seq<Player>, p: Player, nick: Option<string>, draws: int, losses: int, wins: int)
    requires SaveRecordCheck(rows, p) == None
    requires |ActiveNamesakes(rows, p)| > 0
    requires var e := ActiveNamesakes(rows, p)[0];
      && e.nickName.Some?
      && nick == MergedNickName(e.nickName.value, p.nickName)
      && draws == Wrap32(p.numTicTacToeDraw + e.numTicTacToeDraw)
      && losses == Wrap32(p.numTicTacToeLoss + e.numTicTacToeLoss)
      && wins == Wrap32(p.numTicTacToeWin + e.numTicTacToeWin)
    ensures var e := ActiveNamesakes(rows, p)[0];
      PlayerLedger.SaveRecord(rows, p).rows
        == PlayerLedger.Save(PlayerLedger.Save(rows, SetAsDeleted(e)).rows, NewRecord(p, nick, draws, losses, wins)).rows
  {
  }

  lemma SaveRecordKeepsUniqueIf(rows: seq<Player>, p: Player)
    requires WellKeyed(rows)
    ensures UniqueActiveNames(rows) ==> UniqueActiveNames(PlayerLedger.SaveRecord(rows, p).rows)
  {
    if UniqueActiveNames(rows) {
      SaveRecordKeepsUnique(rows, p);
    }
  }
}
