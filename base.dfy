/** Identities, optional values and the errors raised by the edge containers and the validator. */
module Base {

  /**
   * The identity of a node: an allocation identity, never reused once the node
   * is destroyed, so that a weak link to a destroyed node stays expired even if
   * its address is later handed to a new node.
   */
  type Id = nat

  datatype Option<+T> = None | Some(value: T)

  /** What makes a tree not well-formed; tree-base.hpp raises each of these as a NotWellFormed. */
  datatype Violation =
    | Duplicate(node: Id)  // a node registered twice in the pointer map
    | Unknown(node: Id)    // a node looked up in the pointer map but never registered
    | EmptyOne             // an empty One edge (also an empty element of an Any/Many)
    | EmptyMany            // a Many edge without elements
    | EmptyLink            // an empty or expired Link edge

  /** The exceptions of the core: std::out_of_range and NotWellFormed. */
  datatype Error = OutOfRange | NotWellFormed(why: Violation)

  /** The value of an operation that may throw. */
  datatype Result<+T> = Ok(value: T) | Err(error: Error)

  /** The completion of a void operation that may throw. */
  datatype Outcome = Pass | Fail(error: Error)
}
