/** Values standing in for the Java runtime features the polynomial classes use:
    possibly-null references, the argument of `equals(Object)`, and thrown exceptions. */
module Java {

  /** The unchecked exceptions the polynomial classes can throw. */
  datatype Exception =
    | NullPointerException
    | NoSuchElementException
    | NegativeArraySizeException
    | ArrayIndexOutOfBoundsException

  /** The outcome of a call that either returns a value or throws. */
  datatype Result<+T> = Ok(value: T) | Throws(exception: Exception)

  /** A reference whose static type is T: either null or an instance of T. */
  datatype Ref<+T> = Null | Ref(deref: T)

  /** The argument of `equals(Object)`: null, an instance of the class family T,
      or an instance of some unrelated class (an `Integer`, say). */
  datatype Object<+T> = NullObject | Instance(value: T) | Unrelated
}
