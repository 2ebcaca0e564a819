/** Option and Result, for the values the program leaves out and the errors it raises. */
module Wrappers {

  datatype Option<+T> = None | Some(value: T)

  datatype Result<+T, +E> = Ok(value: T) | Err(error: E)
}

/** Row identifiers. */
module Ids {

  /** Identifiers of rows and entities: uuid4 strings and the like, of which only equality matters. */
  type Id(==, !new)

  /**
    Where rows are sorted by id, the id is a uuid4 written as 32 hexadecimal digits.  With a fixed
    number of digits the order of the strings is the order of the numbers they stand for.
   */
  datatype Uuid = Uuid(number: nat)
}
