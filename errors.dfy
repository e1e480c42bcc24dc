/** The failures the engine can raise, and the Option/Result wrappers the model returns instead of throwing. */
module Errors {

  /** One constructor per exception the modelled code can throw. */
  datatype Error =
    | FormatError          // FormatException: the text is not in the integer grammar
    | Overflow             // OverflowException: an integer outside the 32-bit range
    | EnumNotFound         // ArgumentException from Enum.Parse: no member of that name
    | IndexOutOfRange      // IndexOutOfRangeException: a missing pair half, an odd flat dictionary
    | DuplicateKey         // ArgumentException from Dictionary.Add: the key is already present
    | KeyNotFound          // KeyNotFoundException: a row without a "Key" or "Value" column
    | ArgumentMismatch     // ArgumentException from FieldInfo.SetValue: the value is not of the field's type
    | MissingConstructor   // MissingMethodException from Activator.CreateInstance: no parameterless constructor
    | ConstantField        // FieldAccessException from FieldInfo.SetValue on a const field
    | SubListUnsupported   // a `[]` sub-list of enum values or of a custom type the model does not describe
    | ArgumentOutOfRange   // ArgumentOutOfRangeException from String.Remove in the URL rewrite

  datatype Option<+T> = None | Some(value: T)

  datatype Result<+T> = Success(value: T) | Failure(error: Error) {
    predicate IsFailure() { Failure? }

    function PropagateFailure<U>(): Result<U>
      requires Failure?
    {
      Failure(error)
    }

    function Extract(): T
      requires Success?
    {
      value
    }
  }
}
