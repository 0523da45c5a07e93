/** Table cells: values that may be missing, results that may fail, and the
    coercion of text cells to numbers. */
module Cells {

  /** A table cell: a value, or pandas' missing marker (NaN, NaT, None). */
  datatype Option<+T> = None | Some(value: T) {
    /** The value, or `default` when the cell is missing (pandas `fillna`). */
    function GetOr(default: T): T {
      match this
      case Some(v) => v
      case None => default
    }
  }

  /** The outcome of a step that may raise. */
  datatype Result<+T, +E> = Ok(value: T) | Err(error: E) {
    predicate IsFailure() {
      Err?
    }

    function PropagateFailure<U>(): Result<U, E>
      requires Err?
    {
      Err(error)
    }

    function Extract(): T
      requires Ok?
    {
      value
    }
  }

  /** What the host's text-to-number conversion makes of a piece of text:
      a number, the text of a NaN (such as "nan"), or text it cannot read. */
  datatype Parsed = Number(value: real) | NotANumber | Unparseable

  /** The host's decimal-text reader, kept abstract. */
  type NumberParser = string -> Parsed

  /** The sentinel token the source treats as a missing number. */
  const NULL_SENTINEL: string := "Null"

  /** A numeric cell after `replace('Null', NaN)` and
      `to_numeric(errors='coerce')`: the sentinel, NaN text and unreadable
      text all become missing; nothing raises. */
  function CoerceNumeric(cell: Option<string>, parse: NumberParser): (r: Option<real>)
    ensures cell == Some(NULL_SENTINEL) ==> r == None
    ensures cell.Some? && parse(cell.value).Unparseable? ==> r == None
    ensures r.Some? <==> cell.Some? && cell.value != NULL_SENTINEL && parse(cell.value).Number?
    ensures r.Some? ==> r.value == parse(cell.value).value
  {
    match cell
    case None => None
    case Some(text) =>
      if text == NULL_SENTINEL then None
      else
        match parse(text)
        case Number(x) => Some(x)
        case NotANumber => None
        case Unparseable => None
  }
}
