/**
 Shared shapes: the plain JavaScript objects the server uses as records and
 the optional value kept in the server's single slot.
 */
module Records {

  datatype Option<+T> = None | Some(value: T)

  /** A row record: property name to string value. Insertion order is not
      kept (see the README). */
  type Record = map<string, string>

}
