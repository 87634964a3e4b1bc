/** Typed outcomes shared by the evaluator, the primitive table and the JavaScript printer. */
module Results {

  /** The failure kinds the core reports; the source builds a message string for each,
      the model keeps only which kind of failure it was. */
  datatype ErrorKind =
    | TypeError          // operand of the wrong kind for a primitive
    | ArityError         // dictionary application with other than one argument
    | KeyNotFound        // dictionary lookup miss (`get` and dictionary application)
    | BadPrimitive       // unknown primitive operator name
    | NotApplicable      // operator value is not a primitive, closure or dictionary
    | EmptySequence      // a body or program with no forms
    | UnboundVariable    // variable lookup miss
    | LetNotSupported    // `let` is rejected by the evaluator
    | OutOfFuel          // the model's bound on closure applications is used up
    | UnknownCExp        // expression shape the JavaScript printer does not handle

  datatype Result<+T> = Ok(value: T) | Failure(error: ErrorKind) {
    predicate IsFailure() { Failure? }

    function PropagateFailure<U>(): Result<U>
      requires Failure?
    {
      Failure(error)
    }

    function Extract(): T
      requires Ok?
    {
      value
    }
  }

  datatype Option<+T> = None | Some(value: T)
}
