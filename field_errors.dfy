/** The errors Spring validators record: a rejected field and an error code,
    kept in the order they were rejected. */
module FieldErrors {

  /** The fields the validators reject. */
  datatype Field = FirstName | LastName | NickName | NumTicTacToeLoss | NumTicTacToeWin | Score | Board | Winner

  /** The error codes the validators use. */
  datatype Code = FieldRequired | UntrimmedString | NegativeValue | WrongValue | WrongSize | InvalidValue

  /** A rejected field and the error code it was rejected with. */
  datatype FieldError = FieldError(field: Field, code: Code)

  /** The property name under which a field is reported. */
  function FieldName(f: Field): string
  {
    match f
    case FirstName => "firstName"
    case LastName => "lastName"
    case NickName => "nickName"
    case NumTicTacToeLoss => "numTicTacToeLoss"
    case NumTicTacToeWin => "numTicTacToeWin"
    case Score => "score"
    case Board => "board"
    case Winner => "winner"
  }

  /** The text of an error code. */
  function CodeName(c: Code): string
  {
    match c
    case FieldRequired => "field.required"
    case UntrimmedString => "untrimmed.string"
    case NegativeValue => "negative.value"
    case WrongValue => "wrong.value"
    case WrongSize => "wrong.size"
    case InvalidValue => "invalid.value"
  }
}
