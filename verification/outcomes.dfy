/** Result shapes shared by every script model. */
module Outcomes {

  /** The conventional Some/None datatype. */
  datatype Option<+T> = None | Some(value: T)

  /** What one call into code outside the model did: it returned a value,
      or it raised an exception. */
  datatype Call<+T> = Returned(value: T) | Raised
}
