/** Outcomes shared by the whole model: an optional value (Java's null), and the
    result of an operation that may throw. */
module Wrappers {

  datatype Option<+T> = None | Some(value: T)

  /** The exceptions the issue tracker can raise. `TicketException` is the
      checked exception the tracker throws on purpose; the other two are the
      runtime faults of the Java code (a dereferenced null, an array index
      past the end), kept as outcomes so that no operation needs a
      precondition its callers are not asked to meet. */
  datatype Fault = TicketException | NullPointerException | ArrayIndexOutOfBoundsException

  datatype Result<+T> = Ok(value: T) | Err(fault: Fault)

  /** The outcome of an operation that returns nothing (a Java `void` method). */
  datatype Status = Done | Failed(fault: Fault)
}
