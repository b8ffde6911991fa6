/** The `Player` entity: a name, an optional nickname, three game counters and
    the soft-delete flag. A row of the player repository is one such value. */
module PlayerDomain {
  import opened Wrappers
  import opened JavaText

  /** `id` is `null` (None) until the repository assigns one; `nickName` may
      be `null` as well. The counters are Java `Integer`s. */
  datatype Player = Player(
    id: Option<int>,
    firstName: string,
    lastName: string,
    nickName: Option<string>,
    numTicTacToeDraw: int,
    numTicTacToeLoss: int,
    numTicTacToeWin: int,
    isDeleted: bool)

  /** What `Player.playerBuilder().build()` yields. */
  function DefaultPlayer(): (p: Player)
    ensures p.id == None && !p.isDeleted
    ensures p.firstName == "Foo" && p.lastName == "Bar" && p.nickName == Some("")
    ensures p.numTicTacToeDraw == 0 && p.numTicTacToeLoss == 0 && p.numTicTacToeWin == 0
  {
    Player(None, "Foo", "Bar", Some(""), 0, 0, 0, false)
  }

  /** `haveSameFirstNameAndLastNameAllIgnoreCase`: both names equal after
      lower-casing, without trimming. */
  predicate HaveSameName(p: Player, q: Player)
  {
    Lower(p.firstName) == Lower(q.firstName) && Lower(p.lastName) == Lower(q.lastName)
  }

  /** `haveSameData`: same name up to case, identical nickname, counters and
      deletion flag; the ids are not compared. */
  predicate HaveSameData(p: Player, q: Player)
  {
    && HaveSameName(p, q)
    && p.nickName == q.nickName
    && p.numTicTacToeDraw == q.numTicTacToeDraw
    && p.numTicTacToeLoss == q.numTicTacToeLoss
    && p.numTicTacToeWin == q.numTicTacToeWin
    && p.isDeleted == q.isDeleted
  }

  lemma HaveSameNameIsEquivalence(p: Player, q: Player, r: Player)
    ensures HaveSameName(p, p)
    ensures HaveSameName(p, q) ==> HaveSameName(q, p)
    ensures HaveSameName(p, q) && HaveSameName(q, r) ==> HaveSameName(p, r)
  {
  }

  /** Names that differ only in the case of ASCII letters are the same name;
      leading or trailing blanks make a different one. */
  lemma HaveSameNameExamples()
    ensures HaveSameName(DefaultPlayer(), DefaultPlayer().(firstName := "FOO", lastName := "bar"))
    ensures !HaveSameName(DefaultPlayer(), DefaultPlayer().(firstName := "Foo "))
  {
    var p := DefaultPlayer();
    var q := p.(firstName := "FOO", lastName := "bar");
    assert Lower(q.firstName) == "foo" == Lower(p.firstName);
    assert Lower(q.lastName) == "bar" == Lower(p.lastName);
    assert |Lower("Foo ")| != |Lower("Foo")|;
  }

  /** `haveSameData` is an equivalence that ignores the id and implies equal names. */
  lemma HaveSameDataProperties(p: Player, q: Player, r: Player, id: Option<int>)
    ensures HaveSameData(p, p)
    ensures HaveSameData(p, q) ==> HaveSameData(q, p) && HaveSameName(p, q)
    ensures HaveSameData(p, q) && HaveSameData(q, r) ==> HaveSameData(p, r)
    ensures HaveSameData(p, q) <==> HaveSameData(p.(id := id), q)
  {
  }

  /** `fullName`: "last, first". */
  function FullName(p: Player): (s: string)
    ensures |s| == |p.lastName| + 2 + |p.firstName|
    ensures s[..|p.lastName|] == p.lastName
    ensures s[|p.lastName|..|p.lastName| + 2] == ", "
    ensures s[|p.lastName| + 2..] == p.firstName
  {
    p.lastName + ", " + p.firstName
  }

  /** `setAsDeleted`: the deletion flag is raised and nothing else changes. */
  function SetAsDeleted(p: Player): (r: Player)
    ensures r.isDeleted
    ensures r.(isDeleted := p.isDeleted) == p
  {
    p.(isDeleted := true)
  }

  lemma SetAsDeletedIdempotent(p: Player)
    ensures SetAsDeleted(SetAsDeleted(p)) == SetAsDeleted(p)
    ensures HaveSameName(SetAsDeleted(p), p)
  {
  }

  /** `getScore`: wins minus losses in 32-bit `int` arithmetic. */
  function GetScore(p: Player): int
  {
    Wrap32(p.numTicTacToeWin - p.numTicTacToeLoss)
  }

  /** The score is the exact difference whenever the counters are the
      non-negative `Integer`s they are meant to be, and then it lies between
      `-INT_MAX` and `INT_MAX`. */
  lemma GetScoreIsDifference(p: Player)
    requires 0 <= p.numTicTacToeWin <= INT_MAX && 0 <= p.numTicTacToeLoss <= INT_MAX
    ensures GetScore(p) == p.numTicTacToeWin - p.numTicTacToeLoss
    ensures -INT_MAX <= GetScore(p) <= INT_MAX
  {
  }

  /** The score of a record wraps once the difference leaves the `int` range. */
  lemma GetScoreWraps()
    ensures GetScore(DefaultPlayer().(numTicTacToeWin := INT_MAX, numTicTacToeLoss := -1)) == INT_MIN
  {
  }

  function BoolToString(b: bool): string { if b then "true" else "false" }

  /** String concatenation of a possibly-`null` reference. */
  function IdToString(id: Option<int>): string
  {
    match id
    case None => "null"
    case Some(n) => IntToString(n)
  }

  function NickToString(nick: Option<string>): string
  {
    match nick
    case None => "null"
    case Some(s) => s
  }

  /** `toString`; note that the win counter follows its name without `=`. */
  function PlayerToString(p: Player): (s: string)
    ensures |s| > 0 && s[0] == 'P' && s[|s| - 1] == '}'
  {
    "Player{id=" + IdToString(p.id) + ", isDeleted=" + BoolToString(p.isDeleted)
    + ", firstName=" + p.firstName + ", lastName=" + p.lastName
    + ", nickName=" + NickToString(p.nickName)
    + ", numTicTacToeLoss=" + IntToString(p.numTicTacToeLoss)
    + ", numTicTacToeWin" + IntToString(p.numTicTacToeWin)
    + ", score=" + IntToString(GetScore(p)) + "}"
  }
}
