/** The kinds of error the package tells apart; messages are left out. */
module Faults {
  datatype Fault =
    | NoSuchGroup
    | Ambiguous
    | EmptyGroup
    | AttributeName
    | AttributeValue
    | BadQuery           // columns or rows that cannot be read as a name and its attributes
    | ReadElsewhere      // an attribute the configuration reads for something else
    | Broken(cause: int) // a source that could not answer, whatever the reason

  datatype Result<+T> = Ok(value: T) | Err(error: Fault)
}
