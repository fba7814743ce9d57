/** Small value types shared by the whole model. */
module Common {

  /** Python's `None` / a present value. */
  datatype Option<T> = None | Some(value: T)

  /** The outcome of a Python call that either returns a value or raises. */
  datatype Try<T> = Ok(value: T) | Raised

  /** The three canonical field names of a rate table (the columns `postprocess_df` reads). */
  const Service: string := "наименование"
  const Entry: string := "вход"
  const Rate: string := "ставка"
}
