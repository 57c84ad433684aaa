/** Results of the pipeline: an optional value, the errors a sheet can raise, and a
    value-or-error wrapper. */
module Results {

  datatype Option<+T> = None | Some(value: T)

  /** Why one uploaded sheet is rejected as a whole. Each case names the exception
      the pipeline would raise; in every case the session lists are left alone. */
  datatype Error =
    | SheetTooShort                // the sheet has no row at index 4 to use as header
    | HeaderNotText(column: nat)   // a header cell is a number or a date, not a name
    | DuplicateHeader              // two header cells give the same column name
    | MissingColumn(name: string)  // a column the pipeline reads by name is absent
    | AmbiguousColumn(name: string) // two columns end up with the same name
    | NotANumber(text: string)     // an open balance text is not a decimal number
    | NotNumeric                   // an open balance cell holds a date

  datatype Result<+T> = Ok(value: T) | Err(error: Error) {

    predicate IsFailure()
    {
      Err?
    }

    function PropagateFailure<U>(): Result<U>
      requires Err?
    {
      Err(error)
    }

    function Extract(): T
      requires Ok?
    {
      value
    }
  }
}
