/**
 * The entity types that the attendance slice only stores, compares and copies.
 * Their fields (a person's name and contact details, a tutorial's subject, an
 * attendance's date) are never inspected by the code modelled here, so they are
 * opaque types whose only operation is value equality, standing for the Java
 * `equals` of each class. Their `copy()` yields a value-equal instance, which on
 * values is the value itself.
 */
module Entities {

  /** A student in the address book. */
  type Person(==, !new)

  /** A tutorial, identified by its subject. */
  type Tutorial(==, !new)

  /** One dated attendance record. */
  type Attendance(==, !new)

  /** A position in a displayed list, as commands use it: counted from zero. */
  datatype Index = Index(zeroBased: nat)

  /** Stands for a Java reference that may be null. */
  datatype Option<T> = None | Some(value: T)
}
