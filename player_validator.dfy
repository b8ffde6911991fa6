/** The Spring `Validator` for `Player` requests. The same rules, in the same
    order, are found in both copies of `PlayerValidator`. */
module PlayerValidation {
  import opened Wrappers
  import opened JavaText
  import opened PlayerDomain
  import opened FieldErrors

  /** The field is blank: `ValidationUtils.rejectIfEmptyOrWhitespace`. */
  function RequiredError(field: Field, value: string): seq<FieldError>
  {
    if HasText(value) then [] else [FieldError(field, FieldRequired)]
  }

  /** The value starts or ends with a character `trim` removes; see
      `UntrimmedErrorSpec` for the length comparison the validator makes. */
  function UntrimmedError(field: Field, value: string): seq<FieldError>
  {
    if HasNoPadding(value, IsTrimmedByJava) then [] else [FieldError(field, UntrimmedString)]
  }

  function NegativeError(field: Field, value: int): seq<FieldError>
  {
    if value < 0 then [FieldError(field, NegativeValue)] else []
  }

  /** The checks `validate` makes first: both names present. The emptiness
      checks of the counters and the score never fire, since the modelled
      counters are never `null`. */
  function RequiredErrors(p: Player): (r: seq<FieldError>)
    ensures forall e :: e in r ==> e.code == FieldRequired
  {
    RequiredError(FirstName, p.firstName) + RequiredError(LastName, p.lastName)
  }

  /** The padding checks `validate` makes next: both names, and the
      nickname when present. */
  function PaddingErrors(p: Player): (r: seq<FieldError>)
    ensures forall e :: e in r ==> e.code == UntrimmedString
  {
    UntrimmedError(FirstName, p.firstName)
    + UntrimmedError(LastName, p.lastName)
    + (match p.nickName case None => [] case Some(nick) => UntrimmedError(NickName, nick))
  }

  /** The counter checks `validate` makes last: the signs of losses and
      wins, then the score. */
  function CounterErrors(p: Player): (r: seq<FieldError>)
    ensures forall e :: e in r ==> e.code == NegativeValue || e.code == WrongValue
  {
    NegativeError(NumTicTacToeLoss, p.numTicTacToeLoss)
    + NegativeError(NumTicTacToeWin, p.numTicTacToeWin)
    + (if GetScore(p) != Wrap32(p.numTicTacToeWin - p.numTicTacToeLoss)
       then [FieldError(Score, WrongValue)] else [])
  }

  /** `PlayerValidator.validate`: the errors in the order they are rejected. */
  function ValidatePlayer(p: Player): seq<FieldError>
  {
    RequiredErrors(p) + PaddingErrors(p) + CounterErrors(p)
  }

  /** A name is acceptable when it has a non-blank character and does not
      start or end with a character `trim` removes. */
  predicate IsCleanName(s: string)
  {
    HasText(s) && HasNoPadding(s, IsTrimmedByJava)
  }

  /** The untrimmed error is reported exactly when `value.trim().length() != value.length()`. */
  lemma UntrimmedErrorSpec(field: Field, value: string)
    ensures UntrimmedError(field, value) != [] <==> |JavaTrim(value)| != |value|
  {
    StripKeepsLength(value, IsTrimmedByJava);
  }

  /** A player passes validation exactly when both names are clean, the
      nickname is absent or unpadded, and wins and losses are not negative;
      draws and the score are never rejected. */
  lemma ValidatePlayerAccepts(p: Player)
    ensures ValidatePlayer(p) == [] <==>
      && IsCleanName(p.firstName) && IsCleanName(p.lastName)
      && (p.nickName.Some? ==> HasNoPadding(p.nickName.value, IsTrimmedByJava))
      && p.numTicTacToeLoss >= 0 && p.numTicTacToeWin >= 0
  {
  }

  /** A name is reported missing exactly when it has no non-blank character. */
  lemma RequiredErrorsSpec(p: Player)
    ensures FieldError(FirstName, FieldRequired) in ValidatePlayer(p) <==> !HasText(p.firstName)
    ensures FieldError(LastName, FieldRequired) in ValidatePlayer(p) <==> !HasText(p.lastName)
  {
  }

  /** A name, or a present nickname, is reported untrimmed exactly when it
      starts or ends with a character `trim` removes. */
  lemma UntrimmedErrorsSpec(p: Player)
    ensures FieldError(FirstName, UntrimmedString) in ValidatePlayer(p)
        <==> !HasNoPadding(p.firstName, IsTrimmedByJava)
    ensures FieldError(LastName, UntrimmedString) in ValidatePlayer(p)
        <==> !HasNoPadding(p.lastName, IsTrimmedByJava)
    ensures FieldError(NickName, UntrimmedString) in ValidatePlayer(p)
        <==> p.nickName.Some? && !HasNoPadding(p.nickName.value, IsTrimmedByJava)
  {
  }

  /** Losses and wins are reported exactly when negative. */
  lemma CounterErrorsSpec(p: Player)
    ensures FieldError(NumTicTacToeLoss, NegativeValue) in ValidatePlayer(p) <==> p.numTicTacToeLoss < 0
    ensures FieldError(NumTicTacToeWin, NegativeValue) in ValidatePlayer(p) <==> p.numTicTacToeWin < 0
  {
  }

  /** The score rule never fires: the score is derived from the same two
      counters it is compared with. */
  lemma ScoreIsNeverRejected(p: Player)
    ensures forall e :: e in ValidatePlayer(p) ==> e.field != Score
  {
    assert CounterErrors(p)
      == NegativeError(NumTicTacToeLoss, p.numTicTacToeLoss) + NegativeError(NumTicTacToeWin, p.numTicTacToeWin);
    assert forall e :: e in CounterErrors(p) ==> e.field != Score;
    assert forall e :: e in PaddingErrors(p) ==> e.field != Score;
  }

  /** The number of draws plays no part in validation. */
  lemma DrawsAreNotValidated(p: Player, draws: int)
    ensures ValidatePlayer(p.(numTicTacToeDraw := draws)) == ValidatePlayer(p)
  {
  }

  /** An empty name is only reported as missing. */
  lemma EmptyNameIsOnlyRequired(p: Player)
    requires p.firstName == ""
    ensures FieldError(FirstName, FieldRequired) in ValidatePlayer(p)
    ensures FieldError(FirstName, UntrimmedString) !in ValidatePlayer(p)
  {
    RequiredErrorsSpec(p);
    UntrimmedErrorsSpec(p);
  }

  /** The ASCII blanks, which both `trim` and `Character.isWhitespace` treat as white space. */
  predicate IsAsciiBlank(c: char)
  {
    c == ' ' || '\t' <= c <= '\r'
  }

  /** A non-empty name of ASCII blanks is both missing and untrimmed. */
  lemma BlankNameIsRequiredAndUntrimmed(p: Player)
    requires p.firstName != [] && forall i :: 0 <= i < |p.firstName| ==> IsAsciiBlank(p.firstName[i])
    ensures FieldError(FirstName, FieldRequired) in ValidatePlayer(p)
    ensures FieldError(FirstName, UntrimmedString) in ValidatePlayer(p)
  {
    RequiredErrorsSpec(p);
    UntrimmedErrorsSpec(p);
    assert IsTrimmedByJava(p.firstName[0]);
  }

  /** An ideographic space (U+3000) counts as white space for the blank check
      but is not removed by `trim`: such a name is only reported as missing. */
  lemma IdeographicSpaceNameIsOnlyRequired(p: Player)
    requires p.firstName == "\U{3000}"
    ensures FieldError(FirstName, FieldRequired) in ValidatePlayer(p)
    ensures FieldError(FirstName, UntrimmedString) !in ValidatePlayer(p)
  {
    RequiredErrorsSpec(p);
    UntrimmedErrorsSpec(p);
    assert IsJavaWhitespace(p.firstName[0]);
  }

  /** The player a default builder produces is valid. */
  lemma DefaultPlayerIsValid()
    ensures ValidatePlayer(DefaultPlayer()) == []
  {
    var p := DefaultPlayer();
    assert IsCleanName(p.firstName) by {
      assert !IsJavaWhitespace(p.firstName[0]);
    }
    assert IsCleanName(p.lastName) by {
      assert !IsJavaWhitespace(p.lastName[0]);
    }
    ValidatePlayerAccepts(p);
  }
}
