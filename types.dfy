/** Outcome types shared by the loader: the exceptions the Python code raises become `Err` values. */
module Types {

  datatype Option<T> = None | Some(value: T)

  /** The failures of the loader, one per kind of exception the source can raise while parsing. */
  datatype Error =
    | EndOfInput            // `line[0]` on the empty string `readline` returns at end of file (IndexError)
    | BadInteger            // `int(x)` on a header token that is not an integer literal (ValueError)
    | HeaderArity           // the header does not hold exactly four values to unpack (ValueError)
    | MalformedColorEntry   // `re.search(...)` found no colour, so `.group` is called on None

  datatype Result<T> = Ok(value: T) | Err(error: Error)

  /** The number of iterations of Python's `range(n)`. */
  function Count(n: int): (k: nat)
    ensures n >= 0 ==> k == n
    ensures n < 0 ==> k == 0
  {
    if n < 0 then 0 else n
  }

  function Min(a: int, b: int): int
  {
    if a <= b then a else b
  }
}
