/** Outcomes of the phoneword operations.  The Python code signals failure by
    raising; each exception it can raise on the modelled paths becomes one
    constructor of `Error`, and every operation that can raise returns a
    `Result`. */
module Outcomes {

  /** The exceptions the modelled code can raise. */
  datatype Error =
    /** `mapping[ch]` on a character that is not a key of the keypad table. */
    | KeyError(key: char)
    /** `next(...)` ran out: `ch` is in none of the keypad lists. */
    | StopIteration(ch: char)
    /** `reversed_num[0]` on an empty digit string. */
    | IndexError
    /** `len(None)`: the substring collector fell off its end. */
    | TypeError

  datatype Result<+T> = Success(value: T) | Failure(error: Error)

  datatype Option<+T> = None | Some(value: T)
}
