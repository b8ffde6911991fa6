/** The `Players` page component (`players.js`): the page size typed by the
    user, the navigation buttons, the page state they update, and the
    update dialog. The request a state change triggers is reported as a
    flag. */
module PlayersClient {
  import opened Wrappers
  import opened JavaText
  import opened PlayerDomain
  import PF = PlayerForm
  import PE = PlayerEndpointChecks

  /** `pageSizeMax`. */
  const PAGE_SIZE_MAX: int := 8

  // ------------------------------------------------------------ page size

  /** `handleInput`: a digit string is read as a number and clamped to
      1..8; anything else gives 8. */
  function PageSizeFromInput(s: string): (r: int)
    ensures 1 <= r <= PAGE_SIZE_MAX
  {
    if IsDigits(s) then Min(Max(DigitsValue(s), 1), PAGE_SIZE_MAX) else PAGE_SIZE_MAX
  }

  /** The size shown in the box reads back as itself, and reading what the
      box shows after an input changes nothing more. */
  lemma PageSizeRoundTrip(n: nat, s: string)
    requires 1 <= n <= PAGE_SIZE_MAX
    ensures PageSizeFromInput(NatToString(n)) == n
    ensures PageSizeFromInput(NatToString(PageSizeFromInput(s))) == PageSizeFromInput(s)
  {
    NatToStringRoundTrip(n);
    NatToStringRoundTrip(PageSizeFromInput(s));
  }

  /** A digit string keeps its value when it is in range and is clamped to
      the nearer bound otherwise; any other input is the maximum. */
  lemma PageSizeFromInputSpec(s: string)
    ensures IsDigits(s) && 1 <= DigitsValue(s) <= PAGE_SIZE_MAX ==> PageSizeFromInput(s) == DigitsValue(s)
    ensures IsDigits(s) && DigitsValue(s) == 0 ==> PageSizeFromInput(s) == 1
    ensures IsDigits(s) && DigitsValue(s) > PAGE_SIZE_MAX ==> PageSizeFromInput(s) == PAGE_SIZE_MAX
    ensures !IsDigits(s) ==> PageSizeFromInput(s) == PAGE_SIZE_MAX
    ensures PageSizeFromInput(s) == PAGE_SIZE_MAX <==> !IsDigits(s) || DigitsValue(s) >= PAGE_SIZE_MAX
  {
  }

  /** An empty box, a sign and a fraction are not digits only. */
  lemma NonDigitSizes()
    ensures PageSizeFromInput("") == PAGE_SIZE_MAX
    ensures PageSizeFromInput("-3") == PAGE_SIZE_MAX
    ensures PageSizeFromInput("2.5") == PAGE_SIZE_MAX
  {
    assert !IsDigit("-3"[0]);
    assert !IsDigit("2.5"[1]);
  }

  // ------------------------------------------------------------ navigation

  /** `handleNavFirst`. */
  function NavFirst(): int { 0 }

  /** `handleNavPrev`. */
  function NavPrev(page: int): int { Max(page - 1, 0) }

  /** `handleNavNext`: one on, but never past the last page. */
  function NavNext(page: int, totalPages: int): int
  {
    var lastPage := totalPages - 1;
    if page < lastPage then page + 1 else lastPage
  }

  /** `handleNavLast`. */
  function NavLast(totalPages: int): int { totalPages - 1 }

  /** From a page of the list every button leads to a page of the list;
      previous never goes below the first page, next never past the last. */
  lemma NavStaysInRange(page: int, totalPages: int)
    requires 0 <= page < totalPages
    ensures 0 <= NavFirst() < totalPages
    ensures 0 <= NavPrev(page) < totalPages && NavPrev(page) <= page
    ensures 0 <= NavNext(page, totalPages) < totalPages && NavNext(page, totalPages) >= page
    ensures 0 <= NavLast(totalPages) < totalPages
    ensures NavPrev(page) == page <==> page == 0
    ensures NavNext(page, totalPages) == page <==> page == NavLast(totalPages)
  {
  }

  /** Previous and next undo one another away from the ends. */
  lemma NavPrevNextInverse(page: int, totalPages: int)
    requires 0 <= page < totalPages
    ensures page < totalPages - 1 ==> NavPrev(NavNext(page, totalPages)) == page
    ensures 0 < page ==> NavNext(NavPrev(page), totalPages) == page
  {
  }

  /** Before any page has been loaded (`totalPages` 0), next and last ask
      for page -1, which the endpoint refuses as not digits only. */
  lemma EmptyListNavigation(size: string, sortBy: string)
    ensures NavNext(0, 0) == -1 && NavLast(0) == -1
    ensures PE.ValidateArgsOfGetPlayerRepo(IntToString(NavLast(0)), size, sortBy)
      == Some("Request param 'page' should be digits only: " + IntToString(-1))
  {
    PE.NegativeOrEmptyPageRejected(-1, size, sortBy);
  }

  /** The page and size the page asks for pass the endpoint's argument
      checks whenever the page is not negative. */
  lemma RequestArgumentsAccepted(page: int, size: int, sortBy: string)
    requires 0 <= page <= INT_MAX && 1 <= size <= PAGE_SIZE_MAX && sortBy in PE.SORT_PARAMS
    ensures PE.ValidateArgsOfGetPlayerRepo(IntToString(page), IntToString(size), sortBy) == None
  {
    NatToStringRoundTrip(page);
    NatToStringRoundTrip(size);
  }

  // ------------------------------------------------------------ the state

  class PlayersView {
    var players: seq<Player>
    var pageNumber: int
    var pageSize: int
    var totalPages: int
    var sortBy: string

    /** The page size is one the input accepts and the sort property one
        the endpoint accepts. */
    ghost predicate Valid()
      reads this
    {
      1 <= pageSize <= PAGE_SIZE_MAX && sortBy in PE.SORT_PARAMS
    }

    constructor ()
      ensures Valid()
      ensures players == [] && pageNumber == 0 && pageSize == 8 && totalPages == 0 && sortBy == "id"
    {
      players, pageNumber, pageSize, totalPages, sortBy := [], 0, 8, 0, "id";
    }

    /** `updatePageSize`: the state changes, and the list is reloaded, only
        for a different size. */
    method UpdatePageSize(size: int) returns (reload: bool)
      modifies this
      ensures reload <==> old(pageSize) != size
      ensures pageSize == size
      ensures players == old(players) && pageNumber == old(pageNumber)
      ensures totalPages == old(totalPages) && sortBy == old(sortBy)
    {
      reload := false;
      if pageSize != size {
        pageSize := size;
        reload := true;
      }
    }

    /** `updatePageNumber`: the state changes, and the list is reloaded, only
        for a different page. */
    method UpdatePageNumber(page: int) returns (reload: bool)
      modifies this
      ensures reload <==> old(pageNumber) != page
      ensures pageNumber == page
      ensures players == old(players) && pageSize == old(pageSize)
      ensures totalPages == old(totalPages) && sortBy == old(sortBy)
    {
      reload := false;
      if pageNumber != page {
        pageNumber := page;
        reload := true;
      }
    }

    /** `handleInput` followed by `updatePageSize`. */
    method HandleInput(s: string) returns (reload: bool)
      requires Valid()
      modifies this
      ensures Valid()
      ensures pageSize == PageSizeFromInput(s) && (reload <==> old(pageSize) != pageSize)
      ensures pageNumber == old(pageNumber) && players == old(players) && totalPages == old(totalPages)
      ensures sortBy == old(sortBy)
    {
      reload := UpdatePageSize(PageSizeFromInput(s));
    }

    /** `handleNavFirst`. */
    method HandleNavFirst() returns (reload: bool)
      requires Valid()
      modifies this
      ensures Valid()
      ensures pageNumber == NavFirst() && (reload <==> old(pageNumber) != pageNumber)
      ensures pageSize == old(pageSize) && totalPages == old(totalPages)
      ensures players == old(players) && sortBy == old(sortBy)
    {
      reload := UpdatePageNumber(0);
    }

    /** `handleNavPrev`. */
    method HandleNavPrev() returns (reload: bool)
      requires Valid()
      modifies this
      ensures Valid()
      ensures pageNumber == NavPrev(old(pageNumber)) && (reload <==> old(pageNumber) != pageNumber)
      ensures pageSize == old(pageSize) && totalPages == old(totalPages)
      ensures players == old(players) && sortBy == old(sortBy)
    {
      var page := pageNumber;
      page := Max(page - 1, 0);
      reload := UpdatePageNumber(page);
    }

    /** `handleNavNext`. */
    method HandleNavNext() returns (reload: bool)
      requires Valid()
      modifies this
      ensures Valid()
      ensures pageNumber == NavNext(old(pageNumber), old(totalPages)) && (reload <==> old(pageNumber) != pageNumber)
      ensures pageSize == old(pageSize) && totalPages == old(totalPages)
      ensures players == old(players) && sortBy == old(sortBy)
    {
      var page := pageNumber;
      var lastPage := totalPages - 1;
      page := if page < lastPage then page + 1 else lastPage;
      reload := UpdatePageNumber(page);
    }

    /** `handleNavLast`. */
    method HandleNavLast() returns (reload: bool)
      requires Valid()
      modifies this
      ensures Valid()
      ensures pageNumber == NavLast(old(totalPages)) && (reload <==> old(pageNumber) != pageNumber)
      ensures pageSize == old(pageSize) && totalPages == old(totalPages)
      ensures players == old(players) && sortBy == old(sortBy)
    {
      reload := UpdatePageNumber(totalPages - 1);
    }
  }

  // ------------------------------------------------------- update dialog

  /** `UpdatePlayer.handleSubmit`: the `replacePlayer` request pairs the
      player shown with a copy that takes the names from the inputs,
      trimmed, and everything else from the player shown. */
  method SubmitUpdate(current: Player, input: PF.Attribute -> string) returns (oldPlayer: Player, newPlayer: Player)
    ensures oldPlayer == current
    ensures newPlayer == current.(id := None, isDeleted := false,
                                  firstName := JsTrim(input(PF.FirstName)), lastName := JsTrim(input(PF.LastName)),
                                  nickName := Some(JsTrim(input(PF.NickName))))
  {
    var fields := PF.FillForm(input, PF.Copy(current));
    PF.UpdateFormKeepsRecord(current, input);
    oldPlayer, newPlayer := current, PF.ToPlayer(fields);
  }
}
