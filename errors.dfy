/** The error taxonomy of the conversion layer and the result type every
    conversion returns. Only the two variants the converters raise are kept. */
module Errors {

  /** The variants of `DynamodeError` that the conversion layer raises. */
  datatype DynamodeError = Serialization(msg: string) | Deserialization(msg: string)

  datatype Option<+T> = None | Some(value: T)

  /** The outcome of a conversion: a value, an error returned through `?`,
      or `Abort`, which stands for a panic that unwinds every caller. */
  datatype Result<+T> = Ok(value: T) | Err(error: DynamodeError) | Abort {

    predicate IsFailure() {
      !Ok?
    }

    /** The same failure, at another value type (what `?` hands upwards). */
    function PropagateFailure<U>(): (r: Result<U>)
      requires !Ok?
      ensures !r.Ok? && r.Err? == Err? && (Err? ==> r.error == error)
    {
      match this
      case Err(e) => Err(e)
      case Abort => Abort
    }

    function Extract(): T
      requires Ok?
    {
      value
    }
  }

  /** A failure handed up to another value type and back is unchanged. */
  lemma PropagateTwice<T, U>(x: Result<T>)
    requires !x.Ok?
    ensures x.PropagateFailure<U>().PropagateFailure<T>() == x
  {
    match x
    case Err(_) =>
    case Abort =>
  }
}
