/** Shared vocabulary of the persistence helpers: optional values and CLR type names. */
module Common {

  /** A value that may be absent (a `FirstOrDefault` that found nothing, a missing property). */
  datatype Option<+T> = None | Some(value: T)

  /**
   * A CLR type, identified by its assembly-qualified name: two distinct types
   * never share a `TypeName`, just as the filters of the source are keyed by
   * the `ClrType` itself.
   */
  type TypeName = string
}
