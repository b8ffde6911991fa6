# Tic-Tac-Toe and player ledger — a Dafny model

The application is a Spring back end with a React front end. Two players are
registered and then play Tic-Tac-Toe in the browser. Every move is stored as a
`TicTacToe` row, and a move can be viewed again or reverted to ("time travel").
When a game ends, each player's single-game record (one win, one loss or one
draw) is merged into the player ledger. The ledger keeps at most one active
(not deleted) row per case-insensitive name. Deleted rows stay in the store as
tombstones. The players page lists the active players a page at a time and
lets the user create, delete and update them.

The model has one module per component:

- `JavaText`: the Java and JavaScript primitives the code relies on. This covers
  32-bit `int` wrap-around, ASCII case mapping, `String.trim` (Java and
  JavaScript whitespace), `StringUtils.hasText`, the digits-only regular
  expressions and printing an integer.
- `PlayerDomain`: `Player`, with `haveSameFirstNameAndLastNameAllIgnoreCase`,
  `haveSameData`, `fullName`, `setAsDeleted`, `getScore` and `toString`.
- `FieldErrors` and `PlayerValidation`: the `PlayerValidator` of both back ends
  (the two copies are identical). The result is the ordered list of field
  errors.
- `PlayerEndpointChecks`: the request checks of `PlayerEndpoint`. These are the
  paging arguments, the `Field error(s): …` message and the `null` check of
  `replacePlayer`.
- `Repository`: where a JPA `save` puts an entity.
- `PlayerLedger`: the operations of the boardgame `PlayerService` as functions
  over the sequence of stored rows. Each operation returns an `Outcome`: its
  result and the new store.
- `PlayerCrud`: the same service as the classes `PlayerRepository` and
  `PlayerService`. Their methods look rows up and save them step by step, as
  the Java does. Each method is proved to produce exactly the `PlayerLedger`
  outcome, so the two arithmetic exceptions below carry over to them.
- `TicTacToeDomain`: a move (`TicTacToe`), `getWinner` (a scan that may index out
  of bounds on a board that is not 3×3), `copy` and `printBoard`.
- `TicTacToeValidation`: `TicTacToeValidator`.
- `MoveHistory`: the move store and `TicTacToeService` as classes. They are
  specified by `KeepCurrent`: keep the first `n` moves of the current game and
  archive the rest.
- `PlayerForm`, `TicTacToeClient` and `PlayersClient`: the React components.
  - Their state is a class.
  - Each event handler is a method.
  - A request sent to the server is returned as a value.

Store rows are numbered: row `k` has id `k + 1` (`WellKeyed`). Saving an entity
whose id names a row overwrites that row. Any other entity is appended under the
next id.

The model follows the code, including where it differs from what the
application is described as doing:

- A page request with size 0 fails. It never yields an empty page.
- `saveRecord` throws a `NullPointerException` when the stored copy has a `null`
  nickname.
- `saveRecord` refuses to merge only when the matching counter of the stored copy
  is exactly `Integer.MAX_VALUE`. Otherwise the sums wrap (`Wrap32`).
- The score is never rejected by the validator.

Two checks follow the intended arithmetic instead of the 32-bit code; both are
listed under "Findings", with a member that models the code as written:

- `PlayerLedger.SaveRecordCheck` accepts a single-game record when exactly one
  counter is 1 and the others are 0 (`IsSingleGameRecord`). The comment at
  `PlayerService.java:182` says the record must be a win, a loss or a draw; the
  `int` sum at line 191 can wrap to 1. `PlayerLedger.SaveRecord`,
  `PlayerCrud.PlayerService.ValidateSavingRecord` and
  `PlayerCrud.PlayerService.SaveRecord` use the same check.
- `PlayerLedger.GetPlayerRepo` ends a page at the exact `size*(page+1)`, capped
  at the list length. The `int` product at lines 33-35 can wrap and make
  `subList` throw. `PlayerCrud.PlayerService.GetPlayerRepo` returns the same.

## Model

| member | source | states |
|---|---|---|
| JavaText.Wrap32 | src/main/java/com/weixigu/boardgame/service/PlayerService.java:191 | the value a Java `int` sum takes: in range, equal to the exact value when that fits, and congruent to it modulo 2^32 |
| JavaText.NatToStringRoundTrip | src/main/java/com/weixigu/reactandspringdatarest/endpoint/PlayerEndpoint.java:83-126 | a printed natural number is digits only, and `parseInt` of it gives the number back |
| JavaText.NegativeIsNotDigits | src/main/java/com/weixigu/reactandspringdatarest/endpoint/PlayerEndpoint.java:81-86 | a printed negative number never matches `\d+` |
| PlayerDomain.DefaultPlayer | src/main/java/com/weixigu/reactandspringdatarest/domain/Player.java:24-51 | the builder's defaults: no id, "Foo", "Bar", nickname "", all counters 0, not deleted |
| PlayerDomain.HaveSameNameIsEquivalence | src/main/java/com/weixigu/reactandspringdatarest/domain/Player.java:53-57 | the case-insensitive name test is reflexive, symmetric and transitive |
| PlayerDomain.HaveSameNameExamples | src/main/java/com/weixigu/reactandspringdatarest/domain/Player.java:53-57 | case is ignored ("FOO bar" matches "Foo Bar") but blanks are not ("Foo " differs) |
| PlayerDomain.HaveSameDataProperties | src/main/java/com/weixigu/reactandspringdatarest/domain/Player.java:59-66 | `haveSameData` is an equivalence, implies the same name, and ignores the id |
| PlayerDomain.FullName | src/main/java/com/weixigu/reactandspringdatarest/domain/Player.java:68-70 | the full name is the last name, ", ", then the first name |
| PlayerDomain.SetAsDeleted | src/main/java/com/weixigu/reactandspringdatarest/domain/Player.java:72-74 | the result is deleted and differs from the player in nothing else |
| PlayerDomain.SetAsDeletedIdempotent | src/main/java/com/weixigu/reactandspringdatarest/domain/Player.java:72-74 | deleting twice is deleting once, and the name is kept |
| PlayerDomain.GetScoreIsDifference | src/main/java/com/weixigu/reactandspringdatarest/domain/Player.java:76-78 | for non-negative `int` counters the score is wins minus losses, within ±`Integer.MAX_VALUE` |
| PlayerDomain.GetScoreWraps | src/main/java/com/weixigu/reactandspringdatarest/domain/Player.java:76-78 | the `int` subtraction wraps: `MAX_VALUE` wins and -1 losses give `MIN_VALUE` |
| PlayerDomain.PlayerToString | src/main/java/com/weixigu/reactandspringdatarest/domain/Player.java:80-87 | the text starts with "P" and ends with "}" |
| PlayerValidation.RequiredErrors | src/main/java/com/weixigu/boardgame/validation/PlayerValidator.java:27-32 | the first checks report only `field.required`; the counters' emptiness checks never fire |
| PlayerValidation.PaddingErrors | src/main/java/com/weixigu/boardgame/validation/PlayerValidator.java:34-50 | the padding checks report only `untrimmed.string` |
| PlayerValidation.CounterErrors | src/main/java/com/weixigu/boardgame/validation/PlayerValidator.java:52-68 | the counter checks report only `negative.value` or `wrong.value` |
| PlayerValidation.UntrimmedErrorSpec | src/main/java/com/weixigu/reactandspringdatarest/validation/PlayerValidator.java:34-50 | `untrimmed.string` is reported exactly when `trim()` changes the length |
| PlayerValidation.ValidatePlayerAccepts | src/main/java/com/weixigu/reactandspringdatarest/validation/PlayerValidator.java:21-69 | no error exactly when both names have text and no padding, a present nickname has no padding, and wins and losses are not negative |
| PlayerValidation.RequiredErrorsSpec | src/main/java/com/weixigu/boardgame/validation/PlayerValidator.java:27-28 | `field.required` for a name exactly when it has no text |
| PlayerValidation.UntrimmedErrorsSpec | src/main/java/com/weixigu/boardgame/validation/PlayerValidator.java:34-50 | `untrimmed.string` for a name exactly when it has padding; for the nickname only when it is present |
| PlayerValidation.CounterErrorsSpec | src/main/java/com/weixigu/reactandspringdatarest/validation/PlayerValidator.java:52-62 | `negative.value` for losses or wins exactly when negative |
| PlayerValidation.ScoreIsNeverRejected | src/main/java/com/weixigu/reactandspringdatarest/validation/PlayerValidator.java:64-67 | the score check can never fail, since `getScore` is wins minus losses |
| PlayerValidation.DrawsAreNotValidated | src/main/java/com/weixigu/reactandspringdatarest/validation/PlayerValidator.java:21-69 | the draw counter has no effect on the errors |
| PlayerValidation.EmptyNameIsOnlyRequired | src/main/java/com/weixigu/reactandspringdatarest/validation/PlayerValidator.java:27-38 | an empty first name is required but not untrimmed |
| PlayerValidation.BlankNameIsRequiredAndUntrimmed | src/main/java/com/weixigu/reactandspringdatarest/validation/PlayerValidator.java:27-38 | an ASCII-blank first name gets both errors |
| PlayerValidation.IdeographicSpaceNameIsOnlyRequired | src/main/java/com/weixigu/reactandspringdatarest/validation/PlayerValidator.java:27-38 | U+3000 has no text, but `trim()` keeps it, so only `field.required` |
| PlayerValidation.DefaultPlayerIsValid | src/main/java/com/weixigu/reactandspringdatarest/validation/PlayerValidator.java:21-69 | the builder's default player passes validation |
| PlayerEndpointChecks.ValidateArgsOfGetPlayerRepo | src/main/java/com/weixigu/reactandspringdatarest/endpoint/PlayerEndpoint.java:79-114 | no message exactly when page and size are digits only and at most `Integer.MAX_VALUE` and the sort property is listed |
| PlayerEndpointChecks.FirstFailureIsReported | src/main/java/com/weixigu/reactandspringdatarest/endpoint/PlayerEndpoint.java:79-114 | the checks run in the order page, size, sort property, and the first failing one gives the message |
| PlayerEndpointChecks.NegativeOrEmptyPageRejected | src/main/java/com/weixigu/reactandspringdatarest/endpoint/PlayerEndpoint.java:83-86 | a negative or empty page gets the digits-only message |
| PlayerEndpointChecks.LeadingZerosAndZeroSizePass | src/main/java/com/weixigu/reactandspringdatarest/endpoint/PlayerEndpoint.java:79-114 | "007" and a size of "0" pass these checks |
| PlayerEndpointChecks.AcceptedArgumentsAreInts | src/main/java/com/weixigu/reactandspringdatarest/endpoint/PlayerEndpoint.java:124-126 | accepted arguments are `int` values, so `parseInt` cannot throw |
| PlayerEndpointChecks.PrintedIntsPass | src/main/java/com/weixigu/reactandspringdatarest/endpoint/PlayerEndpoint.java:79-114 | every printed page and size from 0 to `Integer.MAX_VALUE` passes |
| PlayerEndpointChecks.PrintedTooLargeRejected | src/main/java/com/weixigu/reactandspringdatarest/endpoint/PlayerEndpoint.java:88-95 | a page above `Integer.MAX_VALUE` gets the too-large message |
| PlayerEndpointChecks.FieldErrorsMessage | src/main/java/com/weixigu/reactandspringdatarest/endpoint/PlayerEndpoint.java:61-76 | a message for errors starts with "Field error(s): " |
| PlayerEndpointChecks.JoinedAppend | src/main/java/com/weixigu/reactandspringdatarest/endpoint/PlayerEndpoint.java:70-72 | the text of two runs of errors is their texts one after the other |
| PlayerEndpointChecks.FieldErrorsMessageSpec | src/main/java/com/weixigu/reactandspringdatarest/endpoint/PlayerEndpoint.java:61-76 | empty exactly when there is no error; otherwise the prefix, then each error's "field [code]" in order |
| PlayerEndpointChecks.PrintFieldErrors | src/main/java/com/weixigu/reactandspringdatarest/endpoint/PlayerEndpoint.java:61-76 | the loop builds exactly that message |
| PlayerEndpointChecks.ValidatePlayerRequest | src/main/java/com/weixigu/reactandspringdatarest/endpoint/PlayerEndpoint.java:45-58 | a message exactly when the validator reports an error, and it starts with "Field error(s): " |
| PlayerEndpointChecks.EmptyFirstNameErrors | src/main/java/com/weixigu/reactandspringdatarest/validation/PlayerValidator.java:27-69 | a default player without a first name has exactly one error, `firstName [field.required]` |
| PlayerEndpointChecks.EmptyFirstNameMessage | src/main/java/com/weixigu/reactandspringdatarest/endpoint/PlayerEndpoint.java:45-76 | that player is refused with that one error's text |
| PlayerEndpointChecks.ReplacePlayerArgumentsSpec | src/main/java/com/weixigu/reactandspringdatarest/endpoint/PlayerEndpoint.java:176-194 | the `null` message exactly when an entry is missing or `null`; both players reach the service exactly when both are valid |
| Repository.SaveSlot | src/main/java/com/weixigu/boardgame/service/PlayerService.java:93-98 | an entity is written to the row its id names when there is one, otherwise after the last row |
| PlayerLedger.Save | src/main/java/com/weixigu/boardgame/service/PlayerService.java:93-98 | `save` writes one row, returns the entity with that row's id, and keeps every other row |
| PlayerLedger.SavePreservesWellKeyed | src/main/java/com/weixigu/boardgame/service/PlayerService.java:93-98 | saving keeps row k at id k+1 |
| PlayerLedger.FindByName | src/main/java/com/weixigu/boardgame/repo/IPlayerRepository.java:11-13 | the derived query returns stored rows with the name (any case) and the deleted flag |
| PlayerLedger.FindByIsDeleted | src/main/java/com/weixigu/boardgame/repo/IPlayerRepository.java:15 | the derived query returns stored rows with the deleted flag |
| PlayerLedger.FindByNameEmpty | src/main/java/com/weixigu/boardgame/repo/IPlayerRepository.java:11-13 | the query is empty exactly when no row matches |
| PlayerLedger.FindByNameFirst | src/main/java/com/weixigu/boardgame/repo/IPlayerRepository.java:11-13 | the first result is the first matching row in the store |
| PlayerLedger.FindByNameTwo | src/main/java/com/weixigu/boardgame/repo/IPlayerRepository.java:11-13 | two matching rows give at least two results |
| PlayerLedger.FindByNameAtMostOne | src/main/java/com/weixigu/boardgame/repo/IPlayerRepository.java:11-13 | when no two rows match, at most one result |
| PlayerLedger.NoActiveNamesakes | src/main/java/com/weixigu/boardgame/service/PlayerService.java:80-85 | no active copy is found exactly when none is stored |
| PlayerLedger.OneActiveNamesake | src/main/java/com/weixigu/boardgame/service/PlayerService.java:113-128 | a single result is the only active row with that name |
| PlayerLedger.SoleActiveNamesakeIsFound | src/main/java/com/weixigu/boardgame/service/PlayerService.java:113-128 | the only active row with a name is the single result |
| PlayerLedger.UniqueFindsAtMostOne | src/main/java/com/weixigu/boardgame/service/PlayerService.java:113-124 | when names are unique among active rows, a lookup finds at most one |
| PlayerLedger.SaveKeepsUnique | src/main/java/com/weixigu/boardgame/service/PlayerService.java:93-98 | saving a tombstone, or a player whose name has no active row, keeps names unique |
| PlayerLedger.TombstoneSoleNamesake | src/main/java/com/weixigu/boardgame/service/PlayerService.java:150-152 | tombstoning the found copy overwrites its row, and no active row of that name is left |
| PlayerLedger.CreateSpec | src/main/java/com/weixigu/boardgame/service/PlayerService.java:76-102 | create fails exactly when an active namesake exists, and then writes nothing; otherwise it saves, appending a player without id under the next id |
| PlayerLedger.CreateKeepsUnique | src/main/java/com/weixigu/boardgame/service/PlayerService.java:94-102 | create keeps names unique among active rows |
| PlayerLedger.DeleteCheckSpec | src/main/java/com/weixigu/boardgame/service/PlayerService.java:109-140 | delete passes its check exactly when there is one active namesake and it has the caller's data |
| PlayerLedger.DeleteSpec | src/main/java/com/weixigu/boardgame/service/PlayerService.java:143-158 | a failed delete writes nothing; a passing one tombstones that row and changes nothing else |
| PlayerLedger.DeleteMissingSaysDNE | src/main/java/com/weixigu/boardgame/service/PlayerService.java:120-124 | deleting a name with no active row is refused with a "DNE" message |
| PlayerLedger.DeleteStaleSaysDNE | src/main/java/com/weixigu/boardgame/service/PlayerService.java:128-133 | deleting with stale data is refused with a "DNE" message |
| PlayerLedger.DeleteTwiceFails | src/main/java/com/weixigu/boardgame/service/PlayerService.java:143-158 | a second delete of the same player fails |
| PlayerLedger.DeleteKeepsUnique | src/main/java/com/weixigu/boardgame/service/PlayerService.java:143-158 | delete keeps names unique among active rows |
| PlayerLedger.ReplaceSameDataIsNoOp | src/main/java/com/weixigu/boardgame/service/PlayerService.java:163-165 | replacing with the same data returns the old player and writes nothing |
| PlayerLedger.ReplaceFailureSpec | src/main/java/com/weixigu/boardgame/service/PlayerService.java:161-180 | replace fails exactly when the delete check of the old player fails, or a renamed new player's name is taken; a failure writes nothing |
| PlayerLedger.ReplaceKeepsUnique | src/main/java/com/weixigu/boardgame/service/PlayerService.java:161-180 | replace keeps names unique when the old player carries the id of its stored copy |
| PlayerLedger.ReplaceWithoutIdBreaksUnique | src/main/java/com/weixigu/boardgame/service/PlayerService.java:172-175 | an old player sent without id tombstones a new row instead of the stored copy, and the store then has two active rows with one name |
| PlayerLedger.SingleGameRecordIsOneOutcome | src/main/java/com/weixigu/boardgame/service/PlayerService.java:183-198 | a single-game record is exactly one win, one loss or one draw |
| PlayerLedger.SingleGameRecordAsWrittenOverflows | src/main/java/com/weixigu/boardgame/service/PlayerService.java:191 | the `int` sum also accepts non-negative counters whose sum is 2^32 + 1, and nothing else extra |
| PlayerLedger.SingleGameRecordAsWrittenCounterexample | src/main/java/com/weixigu/boardgame/service/PlayerService.java:191 | `MAX_VALUE` wins and losses with 3 draws pass the check as written |
| PlayerLedger.SaveRecordRejects | src/main/java/com/weixigu/boardgame/service/PlayerService.java:201-254 | a rejected record writes nothing; an invalid record, two active copies, or a counter already at `MAX_VALUE` is rejected |
| PlayerLedger.SaveRecordFirstGame | src/main/java/com/weixigu/boardgame/service/PlayerService.java:261-308 | with no active copy, the record is appended verbatim under the next id |
| PlayerLedger.SaveRecordMerges | src/main/java/com/weixigu/boardgame/service/PlayerService.java:276-302 | with one active copy, it is tombstoned and a new row appended with the summed counters and the merged nickname; the sums are exact for valid stored counters |
| PlayerLedger.SaveRecordKeepsUnique | src/main/java/com/weixigu/boardgame/service/PlayerService.java:261-308 | saveRecord keeps names unique among active rows |
| PlayerLedger.PageIsInside | src/main/java/com/weixigu/boardgame/service/PlayerService.java:58-64 | the page number is below `ceil(n / size)` exactly when the page starts inside the list |
| PlayerLedger.GetPageFromList | src/main/java/com/weixigu/boardgame/service/PlayerService.java:28-40 | a page holds at most `size` players |
| PlayerLedger.PageFromListAsWrittenAgrees | src/main/java/com/weixigu/boardgame/service/PlayerService.java:28-40 | the `int` version equals the exact page whenever the page's end fits in an `int` |
| PlayerLedger.PageFromListAsWrittenCounterexample | src/main/java/com/weixigu/boardgame/service/PlayerService.java:33-35 | page 1 of size 2^30 over 2^30 + 1 players throws as written, though it exists and holds the last player |
| PlayerLedger.GetPlayerRepoSpec | src/main/java/com/weixigu/boardgame/service/PlayerService.java:43-73 | a page is returned exactly when page ≥ 0, size ≥ 1, the page starts inside the active list and the sort property has text; it holds that slice of the active players; a negative page or size is rejected |
| PlayerCrud.PlayerRepository.constructor | src/main/java/com/weixigu/boardgame/repo/IPlayerRepository.java:10 | the repository starts empty |
| PlayerCrud.PlayerRepository.Save | src/main/java/com/weixigu/boardgame/service/PlayerService.java:93-98 | the store becomes what `PlayerLedger.Save` gives, and stays well keyed |
| PlayerCrud.PlayerRepository.FindByFirstNameAndLastNameAllIgnoreCaseAndIsDeleted | src/main/java/com/weixigu/boardgame/repo/IPlayerRepository.java:11-13 | the rows `FindByName` gives |
| PlayerCrud.PlayerRepository.FindByIsDeleted | src/main/java/com/weixigu/boardgame/repo/IPlayerRepository.java:15 | the rows `PlayerLedger.FindByIsDeleted` gives |
| PlayerCrud.PlayerService.constructor | src/main/java/com/weixigu/boardgame/service/PlayerService.java:22-26 | the service uses the given repository |
| PlayerCrud.PlayerService.GetPlayerRepo | src/main/java/com/weixigu/boardgame/service/PlayerService.java:43-73 | returns exactly the `PlayerLedger.GetPlayerRepo` result and changes nothing |
| PlayerCrud.PlayerService.ValidateCreatingPlayer | src/main/java/com/weixigu/boardgame/service/PlayerService.java:76-90 | the message is the ledger's create check |
| PlayerCrud.PlayerService.CreatePlayer | src/main/java/com/weixigu/boardgame/service/PlayerService.java:94-102 | result and new store are `Create`'s; unique active names are kept |
| PlayerCrud.PlayerService.ValidateDeletingPlayer | src/main/java/com/weixigu/boardgame/service/PlayerService.java:109-140 | the message is the ledger's delete check |
| PlayerCrud.PlayerService.DeletePlayer | src/main/java/com/weixigu/boardgame/service/PlayerService.java:143-158 | result and new store are `Delete`'s; unique active names are kept |
| PlayerCrud.PlayerService.ReplaceOldPlayerWithNewPlayer | src/main/java/com/weixigu/boardgame/service/PlayerService.java:161-180 | result and new store are `Replace`'s; unique active names are kept when the old player carries its stored copy's id |
| PlayerCrud.PlayerService.ValidateSavingRecord | src/main/java/com/weixigu/boardgame/service/PlayerService.java:201-254 | the message is the ledger's saveRecord check |
| PlayerCrud.PlayerService.SaveRecord | src/main/java/com/weixigu/boardgame/service/PlayerService.java:261-308 | result and new store are `PlayerLedger.SaveRecord`'s; unique active names are kept |
| PlayerCrud.SaveRecordMergedRows | src/main/java/com/weixigu/boardgame/service/PlayerService.java:276-302 | after a merge the store is the old one with the stored copy tombstoned, then the merged record appended under the next id |
| PlayerCrud.PlayerService.MergeWithExistingCopy | src/main/java/com/weixigu/boardgame/service/PlayerService.java:276-295 | with a stored nickname: the copy is tombstoned, the counters summed in `int`, and a non-blank stored nickname kept; with a `null` one nothing is written |
| TicTacToeDomain.EmptyBoard | src/main/java/com/weixigu/reactandspringdatarest/domain/TicTacToe.java:30-32 | three rows of three `null` cells |
| TicTacToeDomain.DefaultMove | src/main/java/com/weixigu/reactandspringdatarest/domain/TicTacToe.java:20-36 | no id, X to play, an empty board, part of the current game |
| TicTacToeDomain.RemoveFromCurrentGame | src/main/java/com/weixigu/reactandspringdatarest/domain/TicTacToe.java:38-40 | the move leaves the current game and nothing else changes |
| TicTacToeDomain.Copy | src/main/java/com/weixigu/reactandspringdatarest/domain/TicTacToe.java:74-76 | a copy has no id, the same turn and board, and is current |
| TicTacToeDomain.Same | src/main/java/com/weixigu/reactandspringdatarest/domain/TicTacToe.java:52-65 | `equals` on a neighbour cell holds exactly when that cell is on the board and holds the mark; it throws exactly off the board |
| TicTacToeDomain.Decide | src/main/java/com/weixigu/reactandspringdatarest/domain/TicTacToe.java:52-67 | the mark is found exactly when the first test that does not fail holds; an exception propagates exactly when the first test that does not fail throws; the scan moves on only when every test fails |
| TicTacToeDomain.CheckCellFound | src/main/java/com/weixigu/reactandspringdatarest/domain/TicTacToe.java:51-67 | a mark found at a cell lies on a full line |
| TicTacToeDomain.ScanFromSound | src/main/java/com/weixigu/reactandspringdatarest/domain/TicTacToe.java:49-71 | any winner the scan returns from a cell on owns a full line |
| TicTacToeDomain.GetWinnerSound | src/main/java/com/weixigu/reactandspringdatarest/domain/TicTacToe.java:47-72 | a reported winner owns a full row, column or diagonal |
| TicTacToeDomain.GetWinnerNeverCrashes | src/main/java/com/weixigu/reactandspringdatarest/domain/TicTacToe.java:47-72 | on a 3×3 board no index is out of bounds |
| TicTacToeDomain.StepsFrom | src/main/java/com/weixigu/reactandspringdatarest/domain/TicTacToe.java:49-50 | the steps from cell `k` on are those of cells `k`, `k + 1`, …, 8, in row-major order |
| TicTacToeDomain.Steps | src/main/java/com/weixigu/reactandspringdatarest/domain/TicTacToe.java:49-50 | nine steps, step `k` being what the scan does at row `k / 3`, column `k % 3` |
| TicTacToeDomain.ScanStepsFirst | src/main/java/com/weixigu/reactandspringdatarest/domain/TicTacToe.java:49-71 | a scan over steps reports `v` exactly when the first step that does not move on finds a line of `v` |
| TicTacToeDomain.ScanStepsNone | src/main/java/com/weixigu/reactandspringdatarest/domain/TicTacToe.java:49-71 | a scan over steps reports no winner exactly when every step moves on |
| TicTacToeDomain.ScanFromSteps | src/main/java/com/weixigu/reactandspringdatarest/domain/TicTacToe.java:49-71 | from cell `k` on, the board's nested-loop scan is the scan over its remaining steps |
| TicTacToeDomain.GetWinnerFirstMatch | src/main/java/com/weixigu/reactandspringdatarest/domain/TicTacToe.java:47-72 | `getWinner` returns `v` exactly when some cell finds a line of `v` and every earlier cell in row-major order is passed over; `null` exactly when every cell is passed over |
| TicTacToeDomain.GetWinnerComplete | src/main/java/com/weixigu/reactandspringdatarest/domain/TicTacToe.java:47-72 | on a 3×3 board with a full line some winner is reported |
| TicTacToeDomain.EmptyBoardHasNoWinner | src/main/java/com/weixigu/reactandspringdatarest/domain/TicTacToe.java:47-72 | the empty board has no winner |
| TicTacToeDomain.ScanOrderExample | src/main/java/com/weixigu/reactandspringdatarest/domain/TicTacToe.java:49-54 | with a line of each mark, the one met first in row-major order wins |
| TicTacToeDomain.PrintRow | src/main/java/com/weixigu/reactandspringdatarest/domain/TicTacToe.java:82-86 | a row prints as "[" and its three cells each followed by ", "; a short row throws |
| TicTacToeDomain.PrintBoard | src/main/java/com/weixigu/reactandspringdatarest/domain/TicTacToe.java:78-94 | a board with at least three rows of at least three cells prints its first 3×3 cells as `BoardText`; a smaller one throws |
| TicTacToeDomain.EmptyRowsText | src/main/java/com/weixigu/reactandspringdatarest/domain/TicTacToe.java:78-94 | the three rows of the empty board print as three "[null, null, null, ], " |
| TicTacToeDomain.EmptyBoardText | src/main/java/com/weixigu/reactandspringdatarest/domain/TicTacToe.java:78-94 | the empty board prints as "board=[" and three "[null, null, null, ], " then "]" |
| TicTacToeValidation.RowSizeErrors | src/main/java/com/weixigu/reactandspringdatarest/validation/TicTacToeValidator.java:39-43 | one `wrong.size` per short or long row, none exactly when every row has three cells |
| TicTacToeValidation.ValidateMove | src/main/java/com/weixigu/reactandspringdatarest/validation/TicTacToeValidator.java:26-51 | the errors the validator reports for the move's board |
| TicTacToeValidation.WellFormedBoardIsValid | src/main/java/com/weixigu/reactandspringdatarest/validation/TicTacToeValidator.java:26-51 | a 3×3 board holding only X, O and `null` has no error |
| TicTacToeValidation.InvalidWinnerIff | src/main/java/com/weixigu/reactandspringdatarest/validation/TicTacToeValidator.java:46-50 | on a 3×3 board the only possible error is `invalid.value`, reported exactly when the winner is neither X nor O |
| TicTacToeValidation.LoneForeignMarkPasses | src/main/java/com/weixigu/reactandspringdatarest/validation/TicTacToeValidator.java:46-50 | a foreign mark that forms no line is accepted |
| TicTacToeValidation.ForeignLineIsInvalid | src/main/java/com/weixigu/reactandspringdatarest/validation/TicTacToeValidator.java:46-50 | a line of a foreign mark is `invalid.value` |
| TicTacToeValidation.NoRowsThrows | src/main/java/com/weixigu/reactandspringdatarest/validation/TicTacToeValidator.java:35-50 | an empty board gets `wrong.size`, then `getWinner` throws |
| TicTacToeValidation.TwoRowsWithLine | src/main/java/com/weixigu/reactandspringdatarest/validation/TicTacToeValidator.java:35-50 | a two-row board with a full first row gets only `wrong.size` |
| MoveHistory.SaveTo | src/main/java/com/weixigu/reactandspringdatarest/service/TicTacToeService.java:54 | `save` writes one row, returns the move with its id, and keeps every other row |
| MoveHistory.SavePreservesWellKeyed | src/main/java/com/weixigu/reactandspringdatarest/service/TicTacToeService.java:54 | saving keeps row k at id k+1 |
| MoveHistory.CurrentGame | src/main/java/com/weixigu/boardgame/repo/ITicTacToeRepository.java:11 | the query returns stored moves of the current game |
| MoveHistory.KeepCurrent | src/main/java/com/weixigu/reactandspringdatarest/service/TicTacToeService.java:99-103 | only the current-game flag changes, and it is never set |
| MoveHistory.KeepCurrentFindsPrefix | src/main/java/com/weixigu/reactandspringdatarest/service/TicTacToeService.java:90-108 | after keeping `n` moves, the current game is the first `n` moves of the old current game |
| MoveHistory.KeepCurrentPrefix | src/main/java/com/weixigu/reactandspringdatarest/service/TicTacToeService.java:99-103 | archiving acts on each stored move independently of later rows |
| MoveHistory.KeepCurrentIdempotent | src/main/java/com/weixigu/reactandspringdatarest/service/TicTacToeService.java:90-108 | reverting twice to the same move is reverting once |
| MoveHistory.KeepCurrentPreservesWellKeyed | src/main/java/com/weixigu/reactandspringdatarest/service/TicTacToeService.java:99-103 | archiving keeps row k at id k+1 |
| MoveHistory.KeepAllIsNoOp | src/main/java/com/weixigu/reactandspringdatarest/service/TicTacToeService.java:99-103 | reverting to the last move writes nothing |
| MoveHistory.SaveNewMoveAppends | src/main/java/com/weixigu/reactandspringdatarest/service/TicTacToeService.java:47-58 | a new move is appended to the current game |
| MoveHistory.IndexError | src/main/java/com/weixigu/reactandspringdatarest/service/TicTacToeService.java:61-74 | no error exactly when the index is within the current game |
| MoveHistory.PrevMove | src/main/java/com/weixigu/reactandspringdatarest/service/TicTacToeService.java:77-87 | succeeds exactly for an index within the current game, with the move at that position |
| MoveHistory.ViewAfterRevert | src/main/java/com/weixigu/reactandspringdatarest/service/TicTacToeService.java:90-108 | after reverting to move k, moves 0..k can be viewed as before and later ones are out of range |
| MoveHistory.ResetLeavesNoCurrentMove | src/main/java/com/weixigu/reactandspringdatarest/service/TicTacToeService.java:27-44 | after a reset no stored move is current |
| MoveHistory.RevertThenSave | src/main/java/com/weixigu/reactandspringdatarest/service/TicTacToeService.java:90-108 | reverting to move k and then saving gives the first k+1 moves followed by the new one |
| MoveHistory.MoveRepository.constructor | src/main/java/com/weixigu/boardgame/repo/ITicTacToeRepository.java:10 | the repository starts empty |
| MoveHistory.MoveRepository.Save | src/main/java/com/weixigu/reactandspringdatarest/service/TicTacToeService.java:54 | the store becomes what `SaveTo` gives, and stays well keyed |
| MoveHistory.MoveRepository.FindByIsCurrentGame | src/main/java/com/weixigu/boardgame/repo/ITicTacToeRepository.java:11 | the moves `CurrentGame` gives |
| MoveHistory.TicTacToeService.constructor | src/main/java/com/weixigu/reactandspringdatarest/service/TicTacToeService.java:20-24 | the service uses the given repository |
| MoveHistory.TicTacToeService.ResetGame | src/main/java/com/weixigu/reactandspringdatarest/service/TicTacToeService.java:27-44 | the loop archives every current move (keeps none), and the reset message is returned |
| MoveHistory.TicTacToeService.RemoveFromCurrentGameFrom | src/main/java/com/weixigu/reactandspringdatarest/service/TicTacToeService.java:99-103 | the loop archives the current moves from position `n` on, leaving `KeepCurrent(rows, n)` |
| MoveHistory.TicTacToeService.SaveMove | src/main/java/com/weixigu/reactandspringdatarest/service/TicTacToeService.java:47-58 | a move not of the current game is refused and nothing written; otherwise it is saved |
| MoveHistory.TicTacToeService.ValidateIndexOfMove | src/main/java/com/weixigu/reactandspringdatarest/service/TicTacToeService.java:61-74 | the error `IndexError` gives for the current game |
| MoveHistory.TicTacToeService.ViewPrevMove | src/main/java/com/weixigu/reactandspringdatarest/service/TicTacToeService.java:77-87 | the `PrevMove` result, nothing written |
| MoveHistory.TicTacToeService.RevertToPrevMove | src/main/java/com/weixigu/reactandspringdatarest/service/TicTacToeService.java:90-108 | the `PrevMove` result of the old store; on success the moves after it are archived, on failure nothing is written |
| PlayerForm.NameAttributesIncludeName | src/main/javascript/tictactoe.js:304 | the attributes taken from the inputs are exactly those whose name includes "Name" |
| PlayerForm.AttributeIsListed | src/main/javascript/tictactoe.js:24-25 | every attribute is in `playerAttributes` |
| PlayerForm.FormFields | src/main/javascript/tictactoe.js:300-310 | the object has every attribute, a name attribute holding its input trimmed and any other the fallback |
| PlayerForm.FillForm | src/main/javascript/players.js:470-474 | the `forEach` builds exactly that object |
| PlayerForm.FormGivesPlayer | src/main/javascript/players.js:470-477 | the server reads a player without id, not deleted, with the trimmed inputs as names and nickname and the fallback's counters |
| PlayerForm.CreateFormGivesNewPlayer | src/main/javascript/tictactoe.js:300-310 | the create dialog yields a player with the trimmed names and no games |
| PlayerForm.UpdateFormKeepsRecord | src/main/javascript/players.js:470-474 | the update dialog yields the shown player's counters with the names from the inputs |
| PlayerForm.UnchangedDialogSendsShownPlayer | src/main/javascript/players.js:465-477 | submitting the dialog unchanged sends the shown player without its id, when its names have no padding |
| PlayerForm.UnchangedDialogHasSameData | src/main/java/com/weixigu/reactandspringdatarest/domain/Player.java:59-66 | that copy has the same data as the shown player, so the replacement is the no-op case |
| PlayersClient.PageSizeFromInput | src/main/javascript/players.js:177-189 | the page size is always between 1 and 8 |
| PlayersClient.PageSizeRoundTrip | src/main/javascript/players.js:177-189 | a size from 1 to 8 typed in reads back as itself, and re-reading a size is stable |
| PlayersClient.PageSizeFromInputSpec | src/main/javascript/players.js:181-187 | digits in range are kept, 0 becomes 1, more than 8 becomes 8, other text becomes 8; the result is 8 exactly when the input is not digits or at least 8 |
| PlayersClient.NonDigitSizes | src/main/javascript/players.js:181-187 | "", "-3" and "2.5" give 8 |
| PlayersClient.NavStaysInRange | src/main/javascript/players.js:191-218 | from a page of the list every button leads to a page of the list; previous stays only on the first page, next only on the last |
| PlayersClient.NavPrevNextInverse | src/main/javascript/players.js:197-212 | previous undoes next and next undoes previous away from the ends |
| PlayersClient.EmptyListNavigation | src/main/javascript/players.js:205-218 | with no pages, next and last ask for page -1, which the endpoint refuses as not digits only |
| PlayersClient.RequestArgumentsAccepted | src/main/java/com/weixigu/reactandspringdatarest/endpoint/PlayerEndpoint.java:79-114 | a page ≥ 0 and a size the page accepts always pass the endpoint's argument checks |
| PlayersClient.PlayersView.constructor | src/main/javascript/players.js:15-23 | no players, page 0, size 8, no pages, sorted by id |
| PlayersClient.PlayersView.UpdatePageSize | src/main/javascript/players.js:115-122 | the size is set, and a reload happens exactly when it changes |
| PlayersClient.PlayersView.UpdatePageNumber | src/main/javascript/players.js:124-131 | the page is set, and a reload happens exactly when it changes |
| PlayersClient.PlayersView.HandleInput | src/main/javascript/players.js:177-189 | the size becomes `PageSizeFromInput`, and the state stays valid; the page, page count, players and sort property are unchanged; a reload happens exactly when the size changes |
| PlayersClient.PlayersView.HandleNavFirst | src/main/javascript/players.js:191-195 | the page becomes 0; size, page count, players and sort property are unchanged; a reload happens exactly when the page changes |
| PlayersClient.PlayersView.HandleNavPrev | src/main/javascript/players.js:197-203 | the page becomes `NavPrev` of the old page; size, page count, players and sort property are unchanged; a reload happens exactly when the page changes |
| PlayersClient.PlayersView.HandleNavNext | src/main/javascript/players.js:205-212 | the page becomes `NavNext` of the old page and page count; size, page count, players and sort property are unchanged; a reload happens exactly when the page changes |
| PlayersClient.PlayersView.HandleNavLast | src/main/javascript/players.js:214-218 | the page becomes the last page; size, page count, players and sort property are unchanged; a reload happens exactly when the page changes |
| PlayersClient.SubmitUpdate | src/main/javascript/players.js:465-477 | the request pairs the shown player with a copy taking the trimmed names from the inputs and everything else from the shown player |
| TicTacToeClient.Place | src/main/javascript/tictactoe.js:113-114 | the clicked cell gets the mark and no other cell changes |
| TicTacToeClient.IsGameOver | src/main/javascript/tictactoe.js:186-197 | the loop answers whether every cell is truthy |
| TicTacToeClient.RowMarksFull | src/main/javascript/tictactoe.js:189-196 | a row's mark count is its length exactly when every cell is marked |
| TicTacToeClient.PlaceAddsOneMark | src/main/javascript/tictactoe.js:113-114 | a click on an empty cell adds exactly one mark |
| TicTacToeClient.FullIffNineMarks | src/main/javascript/tictactoe.js:186-197 | a 3×3 board is over exactly when it holds nine marks |
| TicTacToeClient.EmptyBoardIsNotOver | src/main/javascript/tictactoe.js:17-28 | the initial board is not over |
| TicTacToeClient.ValidPlayerNamesSpec | src/main/javascript/tictactoe.js:227-239 | the test is symmetric, a player never plays itself, and namesakes are refused |
| TicTacToeClient.FirstEndingRecordsAreSingleGames | src/main/javascript/tictactoe.js:163-179 | at the first ending both records are single-game records, a win and a loss or two draws, and nothing is sent while the game goes on |
| TicTacToeClient.SecondEndingRecords | src/main/javascript/tictactoe.js:163-179 | the counters stay set on the kept player objects, and a second ending can only follow a draw: a win reached from it sends a draw together with a win or a loss, which the server refuses; a second draw is sent as a single game |
| TicTacToeClient.TicTacToeView.constructor | src/main/javascript/tictactoe.js:17-28 | no winner, X to play, an empty board, move counters -1, no players |
| TicTacToeClient.TicTacToeView.InitPlayer | src/main/javascript/tictactoe.js:201-225 | X is set first; O only if its name differs from X's; a third call fails; nothing else changes |
| TicTacToeClient.TicTacToeView.SubmitPlayer | src/main/javascript/tictactoe.js:296-328 | an empty trimmed first or last name is alerted and changes no player; otherwise the new player with no games becomes X when there is no X (O is unchanged), and becomes O exactly when there is no O and `initPlayer` accepts the two names, else `SAME_NAME_MESSAGE` is alerted and no player changes |
| TicTacToeClient.TicTacToeView.HandleClick | src/main/javascript/tictactoe.js:77-122 | a click on a finished game or a marked cell is ignored (with the game-over alert when it applies); after time travel it first asks for a revert; otherwise it places the mark and asks to save |
| TicTacToeClient.TicTacToeView.AfterRevert | src/main/javascript/tictactoe.js:96-108 | the move count goes back to the viewed move, and the request places the mark on the snapshot's board |
| TicTacToeClient.TicTacToeView.ShowPastMove | src/main/javascript/tictactoe.js:133-141 | the snapshot is shown and only the viewed-move number changes |
| TicTacToeClient.TicTacToeView.AfterSave | src/main/javascript/tictactoe.js:153-179 | the response is shown, both move counters become one more, and the players' records of the ending are sent |
| TicTacToeClient.EndGame | src/main/javascript/tictactoe.js:163-179 | a winner's game sends a win then a loss, a full board two draws, anything else nothing |

## Left out

- Null names and counters are left out. The Java code would throw a `NullPointerException` on them (names, counters, the board and its rows are never `null` here). Only the nickname and ids may be `null`.
- Case mapping is ASCII only: `toLowerCase` of other letters is not modelled.
- Updates of the caller's object in place are modelled as new values. This covers `setAsDeleted`, `removeFromCurrentGame` and the board cell written by a click, so aliasing between the React state and the request object is not captured.
- `setState` is modelled as taking effect at once. React may apply it later, so `saveTicTacToe` reading `this.state.winner` straight after `setState` is modelled as reading the new value.
- Size 0 in `getPlayerRepo` uses floating-point division. It is modelled by its outcome: "too large" for an empty list, otherwise the exception of `Sort.by`/`PageRequest.of`. Spring's own exceptions are named kinds, not messages.
- The endpoint's calls into its `PlayerService` are not modelled, and neither are the create, delete and replace endpoints beyond their argument checks. The reactandspringdatarest `PlayerService` is not part of this model; the boardgame `PlayerService` is.
- HTTP, axios, JSON (de)serialisation, logging, rendering, alerts' display, `window.location`, `app.js`, `index.js` and `TicTacToeEndpoint` are left out as I/O. Where a JSON field is absent, its Lombok default is used. The `score` property the client sends is ignored by the server.
- Derived queries return rows in store order; database-specific ordering is not modelled. `getPlayerRepo` never sorts: it builds `Sort.by(sortBy)`, which only checks that `sortBy` has text, and slices the list in store order. The model does the same.
- Lists longer than `Integer.MAX_VALUE` and `Long` id overflow are not modelled.
- `initTicTacToe` and the response handling of the players page's `loadFromServer`, `createPlayer`, `deletePlayer` and `replacePlayer` are left out: they only forward server responses into state.
- Concurrency between requests is left out: each operation runs alone.
- `PlayerDataLoader`'s seed data is left out.
- TicTacToeClient.TicTacToeView.InitPlayer: the two players having different names (`Distinct`) is an invariant kept by this method only; the state does not require it.
- TicTacToeClient.TicTacToeView.HandleClick: the client assumes a 3×3 board (`Valid`), as the server's validator only reports other shapes.
- PlayersClient.SubmitUpdate: the `currentPlayer` snapshot taken when the dialog is built is taken to be the player shown.
- PlayerLedger.ReplaceKeepsUnique: proved only for an old player carrying its stored copy's id, because the code tombstones the caller's object by id. `ReplaceWithoutIdBreaksUnique` shows the other case.
- PlayerLedger.SaveRecordCheck: uses the exact sum of the three counters, not the `int` sum of `PlayerService.java:191`, which wraps; `IsSingleGameRecordAsWritten` models the code as written (see "Findings").
- PlayerLedger.GetPlayerRepo: slices up to the exact page end, so it returns a page where the code's wrapped `int` end makes `subList` throw (`PlayerService.java:33-37`); `GetPageFromListAsWritten` models the code as written (see "Findings").
- PlayerLedger.GetPageFromList: states only the size bound; the slice it returns is stated by `GetPlayerRepoSpec`.

## Findings

| source | as written | input that shows it | evidently intended | confidence | as-written member | corrected member |
|---|---|---|---|---|---|---|
| src/main/java/com/weixigu/boardgame/service/PlayerService.java:191 | `wins+losses+draws == 1` is evaluated in 32-bit `int` | wins = losses = `Integer.MAX_VALUE`, draws = 3: the sum wraps to 1 and the record passes | exactly one of the three counters is 1 and the others 0 | not executed | PlayerLedger.SingleGameRecordAsWrittenCounterexample | PlayerLedger.SingleGameRecordIsOneOutcome |
| src/main/java/com/weixigu/boardgame/service/PlayerService.java:33-35 | `pageSize*(pageNumber+1)` is evaluated in 32-bit `int` | 2^30 + 1 active players, size 2^30, page 1: the end wraps to `Integer.MIN_VALUE` and `subList` throws, though the page exists | the page is the slice from `size*page` to the smaller of `size*(page+1)` and the list length | not executed | PlayerLedger.PageFromListAsWrittenCounterexample | PlayerLedger.GetPlayerRepoSpec |
