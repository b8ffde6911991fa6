/** The request checks of `PlayerEndpoint` (reactandspringdatarest): the
    paging parameters of `getPlayerRepo`, the field-error message built from
    a validation result, and the `null` check of `replacePlayer`. */
module PlayerEndpointChecks {
  import opened Wrappers
  import opened JavaText
  import opened PlayerDomain
  import opened FieldErrors
  import opened PlayerValidation

  /** The properties a page may be sorted by. */
  const SORT_PARAMS: set<string> :=
    {"id", "firstName", "lastName", "nickName", "numTicTacToeDraw", "numTicTacToeLoss", "numTicTacToeWin", "score"}

  // ------------------------------------------------ getPlayerRepo arguments

  /** The page number or size as text is a decimal number no larger than
      `Integer.MAX_VALUE`. */
  predicate IsIntArgument(s: string)
  {
    IsDigits(s) && DigitsValue(s) <= INT_MAX
  }

  /** `validateArgsOfGetPlayerRepo`: the first check that fails, in the order
      page, size, sort property, gives the message. */
  function ValidateArgsOfGetPlayerRepo(page: string, size: string, sortBy: string): (r: Option<string>)
    ensures r.None? <==> IsIntArgument(page) && IsIntArgument(size) && sortBy in SORT_PARAMS
  {
    if !IsDigits(page) then Some("Request param 'page' should be digits only: " + page)
    else if DigitsValue(page) > INT_MAX then
      Some("Request param 'page' is too large (> " + IntToString(INT_MAX) + "): " + page + ".")
    else if !IsDigits(size) then Some("Request param 'size' should be digits only: " + size)
    else if DigitsValue(size) > INT_MAX then
      Some("Request param 'size' is too large (> " + IntToString(INT_MAX) + "): " + size + ".")
    else if sortBy !in SORT_PARAMS then Some("Request param 'sortBy' is invalid: " + sortBy)
    else None
  }

  /** A bad page number is reported whatever the other arguments are, a bad
      size whatever the sort property is. */
  lemma FirstFailureIsReported(page: string, size: string, sortBy: string)
    ensures !IsDigits(page) ==>
      ValidateArgsOfGetPlayerRepo(page, size, sortBy) == Some("Request param 'page' should be digits only: " + page)
    ensures IsIntArgument(page) && !IsDigits(size) ==>
      ValidateArgsOfGetPlayerRepo(page, size, sortBy) == Some("Request param 'size' should be digits only: " + size)
    ensures IsIntArgument(page) && IsIntArgument(size) && sortBy !in SORT_PARAMS ==>
      ValidateArgsOfGetPlayerRepo(page, size, sortBy) == Some("Request param 'sortBy' is invalid: " + sortBy)
  {
  }

  /** A negative number, printed, and the empty string are not digits only. */
  lemma NegativeOrEmptyPageRejected(i: int, size: string, sortBy: string)
    requires i < 0
    ensures ValidateArgsOfGetPlayerRepo(IntToString(i), size, sortBy)
      == Some("Request param 'page' should be digits only: " + IntToString(i))
    ensures ValidateArgsOfGetPlayerRepo("", size, sortBy) == Some("Request param 'page' should be digits only: ")
  {
    NegativeIsNotDigits(i);
    assert "Request param 'page' should be digits only: " + "" == "Request param 'page' should be digits only: ";
  }

  /** Leading zeros and a zero size pass this check. */
  lemma LeadingZerosAndZeroSizePass()
    ensures ValidateArgsOfGetPlayerRepo("007", "0", "id") == None
  {
    assert DigitsValue("007") == 7 by {
      assert "007"[..2] == "00" && "00"[..1] == "0" && "0"[..0] == "";
    }
    assert DigitsValue("0") == 0 by {
      assert "0"[..0] == "";
    }
  }

  /** An accepted argument is a number `Integer.parseInt` reads without error. */
  lemma AcceptedArgumentsAreInts(page: string, size: string, sortBy: string)
    requires ValidateArgsOfGetPlayerRepo(page, size, sortBy).None?
    ensures IsInt32(DigitsValue(page)) && IsInt32(DigitsValue(size))
  {
  }

  /** Every printed page number from 0 to `Integer.MAX_VALUE` passes. */
  lemma PrintedIntsPass(page: nat, size: nat)
    requires page <= INT_MAX && size <= INT_MAX
    ensures ValidateArgsOfGetPlayerRepo(NatToString(page), NatToString(size), "score") == None
  {
    NatToStringRoundTrip(page);
    NatToStringRoundTrip(size);
  }

  /** One past `Integer.MAX_VALUE` is too large. */
  lemma PrintedTooLargeRejected(page: nat, size: string, sortBy: string)
    requires page > INT_MAX
    ensures ValidateArgsOfGetPlayerRepo(NatToString(page), size, sortBy) ==
      Some("Request param 'page' is too large (> " + IntToString(INT_MAX) + "): " + NatToString(page) + ".")
  {
    NatToStringRoundTrip(page);
  }

  // --------------------------------------------------------- field errors

  /** `"%s [%s]"` of a field error. */
  function ErrorText(e: FieldError): string
  {
    FieldName(e.field) + " [" + CodeName(e.code) + "]"
  }

  /** The texts `f` gives the elements of `xs`, in order, without separator. */
  function Joined<X>(f: X -> string, xs: seq<X>): string
  {
    if xs == [] then "" else Joined(f, xs[..|xs| - 1]) + f(xs[|xs| - 1])
  }

  /** The errors' texts, in order, without separator. */
  function ErrorsText(es: seq<FieldError>): string
  {
    Joined(ErrorText, es)
  }

  /** The message `printFieldErrors` builds. */
  function FieldErrorsMessage(es: seq<FieldError>): (r: string)
    ensures es != [] ==> |r| >= 16 && r[..16] == "Field error(s): "
  {
    if es == [] then "" else "Field error(s): " + ErrorsText(es)
  }

  /** The texts of two runs of elements follow one another. */
  lemma {:induction false} JoinedAppend<X>(f: X -> string, a: seq<X>, b: seq<X>)
    ensures Joined(f, a + b) == Joined(f, a) + Joined(f, b)
    decreases |b|
  {
    if b == [] {
      assert a + b == a;
    } else {
      var b' := b[..|b| - 1];
      assert (a + b)[..|a + b| - 1] == a + b';
      JoinedAppend(f, a, b');
    }
  }

  /** The message is empty exactly when there is no error, and then starts
      with "Field error(s): " followed by each error's text in order. */
  lemma FieldErrorsMessageSpec(es: seq<FieldError>, e: FieldError)
    ensures FieldErrorsMessage(es) == "" <==> es == []
    ensures FieldErrorsMessage([e] + es) == "Field error(s): " + ErrorText(e) + ErrorsText(es)
  {
    JoinedAppend(ErrorText, [e], es);
    assert ErrorsText([e]) == ErrorText(e) by {
      assert [e][..0] == [];
    }
    AppendAssociates("Field error(s): ", ErrorText(e), ErrorsText(es));
  }

  lemma AppendAssociates(a: string, b: string, c: string)
    ensures a + (b + c) == a + b + c
  {
  }

  /** `printFieldErrors`. */
  method PrintFieldErrors(fieldErrors: seq<FieldError>) returns (message: string)
    ensures message == FieldErrorsMessage(fieldErrors)
  {
    message := "";
    if |fieldErrors| > 0 {
      var texts := "";
      for i := 0 to |fieldErrors|
        invariant texts == Joined(ErrorText, fieldErrors[..i])
      {
        assert fieldErrors[..i + 1][..i] == fieldErrors[..i];
        texts := texts + ErrorText(fieldErrors[i]);
      }
      assert fieldErrors[..|fieldErrors|] == fieldErrors;
      message := "Field error(s): " + texts;
    }
  }

  /** `validatePlayer`: the message of the first failed validation, if any. */
  function ValidatePlayerRequest(p: Player): (r: Option<string>)
    ensures r.None? <==> ValidatePlayer(p) == []
    ensures r.Some? ==> |r.value| >= 16 && r.value[..16] == "Field error(s): "
  {
    var es := ValidatePlayer(p);
    if es == [] then None else Some(FieldErrorsMessage(es))
  }

  /** A player without a first name has one field error. */
  lemma EmptyFirstNameErrors()
    ensures ValidatePlayer(DefaultPlayer().(firstName := "")) == [FieldError(FirstName, FieldRequired)]
  {
    var p := DefaultPlayer().(firstName := "");
    assert RequiredError(LastName, p.lastName) == [] by {
      assert !IsJavaWhitespace(p.lastName[0]);
    }
    assert HasNoPadding(p.lastName, IsTrimmedByJava);
    assert HasNoPadding(p.nickName.value, IsTrimmedByJava);
  }

  /** A player without a first name is refused with that one error's text. */
  lemma EmptyFirstNameMessage()
    ensures ValidatePlayerRequest(DefaultPlayer().(firstName := ""))
      == Some("Field error(s): " + ErrorText(FieldError(FirstName, FieldRequired)))
  {
    EmptyFirstNameErrors();
    var e := FieldError(FirstName, FieldRequired);
    FieldErrorsMessageSpec([], e);
    assert [e] + [] == [e];
    assert "Field error(s): " + ErrorText(e) + ErrorsText([]) == "Field error(s): " + ErrorText(e);
  }

  // ------------------------------------------------------- replacePlayer

  const REPLACE_NULL_MESSAGE := "Replace player: " + "'old' player and/or 'new' player is null."

  /** `Map.getOrDefault(key, null)` on the request body. */
  function GetOrNull(body: map<string, Option<Player>>, key: string): Option<Player>
  {
    if key in body then body[key] else None
  }

  /** What `replacePlayer` checks before it calls the service: both entries
      present and not `null`, then the old and the new player valid. */
  function ReplacePlayerArguments(body: map<string, Option<Player>>): Result<(Player, Player), string>
  {
    var oldPlayer := GetOrNull(body, "old");
    var newPlayer := GetOrNull(body, "new");
    if oldPlayer.None? || newPlayer.None? then Failure(REPLACE_NULL_MESSAGE)
    else match ValidatePlayerRequest(oldPlayer.value)
      case Some(message) => Failure(message)
      case None =>
        match ValidatePlayerRequest(newPlayer.value)
        case Some(message) => Failure(message)
        case None => Success((oldPlayer.value, newPlayer.value))
  }

  /** The `null` message is given exactly when an entry is missing or `null`,
      whatever the other player holds; otherwise the players reach the
      service exactly when both are valid. */
  lemma ReplacePlayerArgumentsSpec(body: map<string, Option<Player>>)
    ensures ReplacePlayerArguments(body) == Failure(REPLACE_NULL_MESSAGE) <==>
      GetOrNull(body, "old").None? || GetOrNull(body, "new").None?
    ensures ReplacePlayerArguments(body).Success? <==>
      && GetOrNull(body, "old").Some? && GetOrNull(body, "new").Some?
      && ValidatePlayer(GetOrNull(body, "old").value) == []
      && ValidatePlayer(GetOrNull(body, "new").value) == []
  {
    var r := ReplacePlayerArguments(body);
    if r.Failure? && GetOrNull(body, "old").Some? && GetOrNull(body, "new").Some? {
      assert r.error[..16] == "Field error(s): ";
      assert r.error[0] == 'F' && REPLACE_NULL_MESSAGE[0] == 'R';
    }
  }
}
