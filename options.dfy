/** A cell of the table is either missing (pandas' NaN, here `None`) or a string. */
module Options {

  datatype Option<+T> = None | Some(value: T)

  /** The two non-error outcomes a page can show instead of a table. */
  datatype Advisory =
    | NoSelection   // "Please select at least one ..."
    | NoMatches     // "No matching species found."

  /** What a page renders: an advisory message, or a result. */
  datatype Outcome<+T> = Advise(advisory: Advisory) | Shown(result: T)
}
