/** Optional values, and outcomes of passes that stop the compiler on some inputs. */
module Wrappers {
  datatype Option<+T> = None | Some(value: T)

  datatype Error = NoExpansion | IndexOutOfRange | NonConstantStructIndex | ConstantAccessNeeded

  datatype Result<+T> = Ok(value: T) | Err(error: Error) {
    predicate IsFailure() { Err? }
    function PropagateFailure<U>(): (r: Result<U>)
      requires Err?
    {
      Err(error)
    }
    function Extract(): T
      requires Ok?
    {
      value
    }
  }
}
