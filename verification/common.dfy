/** Shared value wrappers: optional values (Java null / Python None), results
    of operations that may throw, and the exception kinds the services raise. */
module Common {

  /** A value that may be absent; `None` stands for Java `null` or Python `None`. */
  datatype Option<T> = None | Some(value: T) {
    function GetOr(default: T): T {
      match this
      case Some(v) => v
      case None => default
    }
  }

  /** The exception kinds raised by the modelled code, each with its message. */
  datatype Failure =
    | IllegalArgument(message: string)
    | Runtime(message: string)
    | UnsupportedOperation(message: string)
    | ValueError(message: string)
    | TypeError(message: string)
    | IndexOutOfBounds(message: string)
    /** A `DataIntegrityViolationException`: the database refused a write that
        breaks one of its constraints. */
    | DataIntegrity(message: string)
    /** A `NullPointerException`. One that library code throws with `new
        NullPointerException()` has no message; one the JVM raises on a null
        dereference carries the JVM's description of the failed access. */
    | NullPointer(description: Option<string>)
    /** A `PropertyReferenceException`: a sort names a property the entity
        type does not have. */
    | PropertyReference(message: string)

  /** A `NullPointerException` thrown explicitly, without a message. */
  const ThrownNullPointer: Failure := NullPointer(None)

  /** The `NullPointerException` the JVM raises when `invoked` is called on a
      null `variable`, with the description Java 17 gives it (JEP 358). */
  function NullDereference(invoked: string, variable: string): (f: Failure)
    ensures f.NullPointer? && f.description.Some?
    ensures |f.description.value| > |invoked| + |variable|
  {
    NullPointer(Some("Cannot invoke \"" + invoked + "\" because \"" + variable + "\" is null"))
  }

  /** `e.getMessage()`: absent only for an explicitly thrown null pointer. */
  function MessageOf(f: Failure): (m: Option<string>)
    ensures m.None? <==> f == ThrownNullPointer
  {
    match f
    case IllegalArgument(msg) => Some(msg)
    case Runtime(msg) => Some(msg)
    case UnsupportedOperation(msg) => Some(msg)
    case ValueError(msg) => Some(msg)
    case TypeError(msg) => Some(msg)
    case IndexOutOfBounds(msg) => Some(msg)
    case DataIntegrity(msg) => Some(msg)
    case NullPointer(description) => description
    case PropertyReference(msg) => Some(msg)
  }

  /** String concatenation of a message in Java: a null message prints as "null". */
  function MessageText(f: Failure): string {
    MessageOf(f).GetOr("null")
  }

  /** The value of an operation that either returns or throws. */
  datatype Result<T> = Ok(value: T) | Err(failure: Failure) {
    predicate IsFailure() {
      Err?
    }

    function PropagateFailure<U>(): Result<U>
      requires Err?
    {
      Err(failure)
    }

    function Extract(): T
      requires Ok?
    {
      value
    }
  }

  /** The completion of an operation that returns nothing (`void`). */
  datatype Outcome = Done | Failed(failure: Failure)
}
