/** The failures the design-matrix pipeline can raise, and a Result type
    that carries either a value or one of them. */
module Results {

  /** Python exceptions the modelled code can raise on its inputs. */
  datatype Error =
    | EmptyFirstLine                       // lines[0] of an empty file (IndexError)
    | ColumnIndexOutOfRange(index: int)    // col_names[idx] (IndexError)
    | NotAnInteger(text: string)           // int(i) on a list entry (ValueError)
    | IdColumnSelectedTwice                // df[col0] is a DataFrame, .to_list() fails

  /** A value that may be absent, as int() either returns or raises. */
  datatype Option<+T> = None | Some(value: T)

  datatype Result<+T> = Ok(value: T) | Err(error: Error) {
    predicate IsFailure() {
      Err?
    }

    function PropagateFailure<U>(): Result<U>
      requires Err?
    {
      Err(error)
    }

    function Extract(): T
      requires Ok?
    {
      value
    }
  }
}
