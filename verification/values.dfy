/** Attribute values stored on elements, with the part of PHP's truthiness that
    the registry consults (`?:`, `if ($valueName)`, `??`). */
module Values {

  /** An opaque attribute value. Floats, arrays and callables are not modelled. */
  datatype Value = Null | Bool(b: bool) | Int(i: int) | Str(s: string)

  /** PHP's cast of a string to bool: only "" and "0" are falsy. */
  predicate StringTruthy(s: string) {
    s != "" && s != "0"
  }

  /** PHP's cast of a scalar to bool. */
  predicate Truthy(v: Value) {
    match v
    case Null => false
    case Bool(b) => b
    case Int(i) => i != 0
    case Str(s) => StringTruthy(s)
  }

  /** The decimal digits of a natural number. */
  function DigitString(n: nat): (s: string)
    ensures |s| > 0
    decreases n
  {
    var d := ['0', '1', '2', '3', '4', '5', '6', '7', '8', '9'][n % 10];
    if n < 10 then [d] else DigitString(n / 10) + [d]
  }

  /** PHP's conversion of an integer to a string. */
  function IntString(i: int): string {
    if i < 0 then "-" + DigitString(-i) else DigitString(i)
  }

  /** PHP's conversion of a non-null scalar passed where a `string` is
      declared (without strict types): false becomes "", true becomes "1".
      Null is not converted: a non-nullable `string` parameter rejects it
      (see `Elements.Construct`). */
  function StringOf(v: Value): (s: string)
    requires !v.Null?
    ensures v.Str? ==> s == v.s
    ensures v.Int? ==> s == IntString(v.i)
    ensures v.Bool? ==> s == (if v.b then "1" else "")
  {
    if v.Bool? then (if v.b then "1" else "")
    else if v.Int? then IntString(v.i)
    else v.s
  }
}

/** Error values standing for the exceptions the core throws, plus the
    failure-compatible wrappers used by every operation. */
module Errors {

  datatype Option<+T> = None | Some(value: T)

  datatype Error =
      /** LockException: a guarded operation on a locked instance, or a
          failing locking hook. `instance` names the element or the family; `operation` labels the guarded action. */
    | LockViolation(instance: string, operation: string)
      /** BaseElement::get found no override, no identity name, no stored value. */
    | UndefinedAttribute(kind: string, element: string, key: string)
      /** BaseManager::get on an unregistered name. */
    | UnknownElement(kind: string, name: string)
      /** BaseManager::find with no element whose native matches. */
    | UnknownNativeElement(kind: string, native: string)
      /** OwnException raised by the ownership guard. */
    | OwnershipViolation(operation: string)
      /** PHP's fatal error for a call to a method that is not defined. */
    | UndefinedMethod(methodName: string)
      /** ConfigException carrying the dot-joined configuration path. */
    | ConfigMergeConflict(config: string)
      /** PHP's TypeError for an argument the declared parameter type rejects:
          a non-array where an array is declared, or null where a `string` is. */
    | ArgumentTypeError

  datatype Result<+T> = Ok(value: T) | Err(error: Error) {

    predicate IsFailure() {
      Err?
    }

    function PropagateFailure<U>(): Result<U>
      requires Err?
    {
      Err(error)
    }

    function Extract(): T
      requires Ok?
    {
      value
    }
  }
}
