/** The player dialogs of the two pages (`CreatePlayer` in `tictactoe.js`,
    `UpdatePlayer` in `players.js`): the `newPlayer` object is filled one
    attribute at a time, the name attributes from the dialog's inputs,
    trimmed, the others from a fallback. */
module PlayerForm {
  import opened Wrappers
  import opened JavaText
  import opened PlayerDomain

  /** The entries of `playerAttributes`. */
  datatype Attribute =
    | FirstName | LastName | NickName
    | NumTicTacToeDraw | NumTicTacToeLoss | NumTicTacToeWin | Score

  /** `playerAttributes`, in order. */
  const ATTRIBUTES: seq<Attribute> :=
    [FirstName, LastName, NickName, NumTicTacToeDraw, NumTicTacToeLoss, NumTicTacToeWin, Score]

  /** The property name of an attribute. */
  function AttributeName(a: Attribute): string
  {
    match a
    case FirstName => "firstName"
    case LastName => "lastName"
    case NickName => "nickName"
    case NumTicTacToeDraw => "numTicTacToeDraw"
    case NumTicTacToeLoss => "numTicTacToeLoss"
    case NumTicTacToeWin => "numTicTacToeWin"
    case Score => "score"
  }

  /** The dialogs take from their inputs the attributes whose name
      includes "Name". */
  predicate IsNameAttribute(a: Attribute)
  {
    a == FirstName || a == LastName || a == NickName
  }

  /** `IsNameAttribute` is the `attribute.includes('Name')` test. */
  lemma NameAttributesIncludeName(a: Attribute)
    ensures IsNameAttribute(a) <==> Includes(AttributeName(a), "Name")
  {
    var s := AttributeName(a);
    match a
    case FirstName => assert OccursAt(s, "Name", 5);
    case LastName => assert OccursAt(s, "Name", 4);
    case NickName => assert OccursAt(s, "Name", 4);
    case _ =>
      forall k | 0 <= k <= |s| - 4
        ensures !OccursAt(s, "Name", k)
      {
        assert s[k..k + 4][0] == s[k];
        assert s[k] != 'N';
      }
  }

  /** A value of the JavaScript object: a string, a number or `null`. */
  datatype Value = Text(text: string) | Num(num: int) | Null

  /** Where a dialog takes the attributes that are not names from: the
      create dialog writes 0, the update dialog copies the player shown. */
  datatype Fallback = Zeros | Copy(shown: Player)

  /** The JSON value of a stored player's attribute. */
  function ValueOf(p: Player, a: Attribute): Value
  {
    match a
    case FirstName => Text(p.firstName)
    case LastName => Text(p.lastName)
    case NickName => if p.nickName.Some? then Text(p.nickName.value) else Null
    case NumTicTacToeDraw => Num(p.numTicTacToeDraw)
    case NumTicTacToeLoss => Num(p.numTicTacToeLoss)
    case NumTicTacToeWin => Num(p.numTicTacToeWin)
    case Score => Num(GetScore(p))
  }

  /** The fallback value of attribute `a`. */
  function FallbackValue(otherwise: Fallback, a: Attribute): Value
  {
    match otherwise
    case Zeros => Num(0)
    case Copy(p) => ValueOf(p, a)
  }

  /** The entry the dialog stores for attribute `a`. */
  function FormEntry(input: Attribute -> string, otherwise: Fallback, a: Attribute): Value
  {
    if IsNameAttribute(a) then Text(JsTrim(input(a))) else FallbackValue(otherwise, a)
  }

  /** Every attribute is listed. */
  lemma AttributeIsListed(a: Attribute)
    ensures a in ATTRIBUTES
  {
    match a
    case FirstName => assert ATTRIBUTES[0] == a;
    case LastName => assert ATTRIBUTES[1] == a;
    case NickName => assert ATTRIBUTES[2] == a;
    case NumTicTacToeDraw => assert ATTRIBUTES[3] == a;
    case NumTicTacToeLoss => assert ATTRIBUTES[4] == a;
    case NumTicTacToeWin => assert ATTRIBUTES[5] == a;
    case Score => assert ATTRIBUTES[6] == a;
  }

  /** The object a dialog builds: every attribute is present, a name
      attribute holds its input trimmed, any other attribute the fallback's
      value. */
  function FormFields(input: Attribute -> string, otherwise: Fallback): (fields: map<Attribute, Value>)
    ensures forall a :: a in fields && fields[a] == FormEntry(input, otherwise, a)
  {
    var fields := map a: Attribute | a in ATTRIBUTES :: FormEntry(input, otherwise, a);
    assert forall a :: a in fields by {
      forall a ensures a in fields {
        AttributeIsListed(a);
      }
    }
    fields
  }

  /** The `forEach` over `playerAttributes` that builds `newPlayer`. */
  method FillForm(input: Attribute -> string, otherwise: Fallback) returns (newPlayer: map<Attribute, Value>)
    ensures newPlayer == FormFields(input, otherwise)
  {
    newPlayer := map[];
    for k := 0 to |ATTRIBUTES|
      invariant forall a :: a in newPlayer <==> a in ATTRIBUTES[..k]
      invariant forall a :: a in newPlayer ==> newPlayer[a] == FormEntry(input, otherwise, a)
    {
      var attribute := ATTRIBUTES[k];
      assert ATTRIBUTES[..k + 1] == ATTRIBUTES[..k] + [attribute];
      newPlayer := newPlayer[attribute := if IsNameAttribute(attribute) then Text(JsTrim(input(attribute))) else FallbackValue(otherwise, attribute)];
    }
    assert ATTRIBUTES[..|ATTRIBUTES|] == ATTRIBUTES;
  }

  /** The string a JSON property holds, `""` when it is absent or no string. */
  function TextOf(fields: map<Attribute, Value>, a: Attribute): string
  {
    if a in fields && fields[a].Text? then fields[a].text else ""
  }

  /** The number a JSON value holds, 0 when it is no number. */
  function NumValue(v: Value): int
  {
    if v.Num? then v.num else 0
  }

  /** The number a JSON property holds, 0 when it is absent or no number. */
  function NumOf(fields: map<Attribute, Value>, a: Attribute): int
  {
    if a in fields then NumValue(fields[a]) else 0
  }

  /** The `Player` the server reads from the request body: no id, not
      deleted, the names and counters of the object (the score is derived on
      the server and is not read). */
  function ToPlayer(fields: map<Attribute, Value>): Player
  {
    Player(
      None,
      TextOf(fields, FirstName),
      TextOf(fields, LastName),
      if NickName in fields && fields[NickName].Text? then Some(fields[NickName].text) else None,
      NumOf(fields, NumTicTacToeDraw),
      NumOf(fields, NumTicTacToeLoss),
      NumOf(fields, NumTicTacToeWin),
      false)
  }

  /** Whatever the fallback, the server reads a player without id, not
      deleted, with the trimmed inputs as names and nickname and the
      fallback's numbers as counters. */
  lemma FormGivesPlayer(input: Attribute -> string, otherwise: Fallback)
    ensures ToPlayer(FormFields(input, otherwise))
      == Player(None, JsTrim(input(FirstName)), JsTrim(input(LastName)), Some(JsTrim(input(NickName))),
                NumValue(FallbackValue(otherwise, NumTicTacToeDraw)),
                NumValue(FallbackValue(otherwise, NumTicTacToeLoss)),
                NumValue(FallbackValue(otherwise, NumTicTacToeWin)), false)
  {
    var fields := FormFields(input, otherwise);
    assert fields[FirstName] == FormEntry(input, otherwise, FirstName);
    assert fields[LastName] == FormEntry(input, otherwise, LastName);
    assert fields[NickName] == FormEntry(input, otherwise, NickName);
    assert fields[NumTicTacToeDraw] == FormEntry(input, otherwise, NumTicTacToeDraw);
    assert fields[NumTicTacToeLoss] == FormEntry(input, otherwise, NumTicTacToeLoss);
    assert fields[NumTicTacToeWin] == FormEntry(input, otherwise, NumTicTacToeWin);
  }

  /** The create dialog fills the counters with zeros: the server reads a
      new player with the trimmed names and nickname and no games. */
  lemma CreateFormGivesNewPlayer(input: Attribute -> string)
    ensures ToPlayer(FormFields(input, Zeros))
      == Player(None, JsTrim(input(FirstName)), JsTrim(input(LastName)), Some(JsTrim(input(NickName))), 0, 0, 0, false)
  {
    FormGivesPlayer(input, Zeros);
  }

  /** The update dialog fills the other attributes from the player shown:
      the server reads that player's counters with the names taken from the
      inputs, and no id, so it stores the copy as a new row. */
  lemma UpdateFormKeepsRecord(current: Player, input: Attribute -> string)
    ensures ToPlayer(FormFields(input, Copy(current)))
      == current.(id := None, isDeleted := false,
                  firstName := JsTrim(input(FirstName)), lastName := JsTrim(input(LastName)),
                  nickName := Some(JsTrim(input(NickName))))
  {
    FormGivesPlayer(input, Copy(current));
    assert NumValue(FallbackValue(Copy(current), NumTicTacToeDraw)) == current.numTicTacToeDraw;
    assert NumValue(FallbackValue(Copy(current), NumTicTacToeLoss)) == current.numTicTacToeLoss;
    assert NumValue(FallbackValue(Copy(current), NumTicTacToeWin)) == current.numTicTacToeWin;
  }

  /** Submitting the dialog as shown, for a player that is not deleted and
      whose names and nickname have no blanks to trim, sends the player shown
      without its id. */
  lemma UnchangedDialogSendsShownPlayer(current: Player, input: Attribute -> string)
    requires !current.isDeleted && current.nickName.Some?
    requires HasNoPadding(current.firstName, IsJsWhitespace) && HasNoPadding(current.lastName, IsJsWhitespace)
    requires HasNoPadding(current.nickName.value, IsJsWhitespace)
    requires input(FirstName) == current.firstName && input(LastName) == current.lastName
    requires input(NickName) == current.nickName.value
    ensures current.(id := None, isDeleted := false,
                     firstName := JsTrim(input(FirstName)), lastName := JsTrim(input(LastName)),
                     nickName := Some(JsTrim(input(NickName)))) == current.(id := None)
  {
    StripUnpadded(current.firstName, IsJsWhitespace);
    StripUnpadded(current.lastName, IsJsWhitespace);
    StripUnpadded(current.nickName.value, IsJsWhitespace);
  }

  /** The copy the unchanged dialog sends has the same data as the player
      shown, so the replacement asked for is one `haveSameData` recognises. */
  lemma UnchangedDialogHasSameData(current: Player, input: Attribute -> string)
    requires !current.isDeleted && current.nickName.Some?
    requires HasNoPadding(current.firstName, IsJsWhitespace) && HasNoPadding(current.lastName, IsJsWhitespace)
    requires HasNoPadding(current.nickName.value, IsJsWhitespace)
    requires input(FirstName) == current.firstName && input(LastName) == current.lastName
    requires input(NickName) == current.nickName.value
    ensures HaveSameData(current, current.(id := None, isDeleted := false,
                                  firstName := JsTrim(input(FirstName)), lastName := JsTrim(input(LastName)),
                                  nickName := Some(JsTrim(input(NickName)))))
  {
    var copy := current.(id := None, isDeleted := false,
                         firstName := JsTrim(input(FirstName)), lastName := JsTrim(input(LastName)),
                         nickName := Some(JsTrim(input(NickName))));
    UnchangedDialogSendsShownPlayer(current, input);
    assert copy == current.(id := None);
    HaveSameDataProperties(current.(id := None), current, current, None);
    assert HaveSameData(current, current.(id := None));
  }
}
