/** Java-flavoured outcomes shared by every module: a nullable value, the
    exceptions the modelled code can throw, and results that carry either a
    value or the exception that ended the call. */
module Wrappers {

  /** A Java reference or nullable value: None stands for null. */
  datatype Option<+T> = None | Some(value: T)

  /** The unchecked exceptions (and the one error) the modelled code raises. */
  datatype Exception =
    | NullPointer        // java.lang.NullPointerException
    | IllegalArgument    // java.lang.IllegalArgumentException
    | NoSuchElement      // java.util.NoSuchElementException
    | IndexOutOfBounds   // java.lang.IndexOutOfBoundsException
    | StackOverflow      // java.lang.StackOverflowError from unbounded recursion

  /** The result of a Java call that returns a value or throws. */
  datatype Result<+T> = Ok(value: T) | Err(error: Exception)

  /** The result of a Java call that returns nothing (void) or throws. */
  datatype Outcome = Pass | Fail(error: Exception)
}
