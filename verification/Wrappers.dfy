// Failure-carrying results shared by every module.  `Fatal` stands for the compiler's
// `fatal(...)`: an error message followed by exit.

module Wrappers {

  datatype Option<+T> = None | Some(value: T) {
    predicate IsFailure() {
      None?
    }

    function PropagateFailure<U>(): Option<U>
      requires None?
    {
      None
    }

    function Extract(): T
      requires Some?
    {
      value
    }
  }

  datatype Result<+T> = Ok(value: T) | Fatal(why: string) {
    predicate IsFailure() {
      Fatal?
    }

    function PropagateFailure<U>(): Result<U>
      requires Fatal?
    {
      Fatal(why)
    }

    function Extract(): T
      requires Ok?
    {
      value
    }
  }
}
