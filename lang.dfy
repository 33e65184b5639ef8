/** Java-level vocabulary shared by the containers and the parser: nullable
    references, the exceptions the containers throw, and the two ways a Java
    call can complete (a returned value or a thrown exception). */
module Lang {

  /** A Java reference of element type `T`: `null` or a reference to a value. */
  datatype Nullable<+T> = Null | Ref(value: T)

  /** The exceptions thrown by the containers of this model. */
  datatype Exception =
    | NullPointerException
    | IndexOutOfBoundsException
    | EmptyStackException
    | EmptyQueueException

  /** Completion of a Java method that returns a value. */
  datatype Result<+T> = Return(value: T) | Throw(exception: Exception)

  /** Completion of a Java `void` method. */
  datatype Outcome = Completed | Threw(exception: Exception)
}
