/** The optional value used for every field the parsed PubMed document may lack. */
module Wrappers {

  datatype Option<+T> = None | Some(value: T)

}
