/** Values shared by every module: optional values, Ruby's exceptions as a
    result type, and the few dynamically typed Ruby arguments the core
    inspects. */
module Wrappers {

  datatype Option<+T> = None | Some(value: T)

  /** The Ruby exceptions that the modelled code raises or lets escape. */
  datatype Error =
    | TypeError        // nil (or a non-String) where a path or a text is needed
    | ArgumentError    // a guard clause rejects its argument, or Time.parse finds no time
    | NoMethodError    // a method sent to nil: a missing row, STDIN at end of input
    | ScriptError      // the trasher's and the handler's refusals
    | PermissionError  // Errno::EACCES while reading a file's content
    | StackError       // SystemStackError: recursion that never ends

  /** The outcome of a call that may raise. */
  datatype Result<+T> = Ok(value: T) | Err(error: Error)

  /** An argument whose class the callee checks with `is_a?`: either an
      instance of the expected class or some other object. */
  datatype Dyn<+T> = Instance(value: T) | OtherObject

  /** The Ruby values passed as the `recursive:` flag. */
  datatype RubyValue = TrueValue | FalseValue | NilValue | IntValue(i: int)
  {
    /** Ruby truthiness: everything except false and nil. */
    predicate Truthy() { !(FalseValue? || NilValue?) }
  }
}
