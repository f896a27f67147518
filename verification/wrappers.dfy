/** The optional value used for every "may be absent" result of the model:
    a regular-expression search that finds nothing, a page without a player,
    a run that ends without a video link. */
module Wrappers {

  datatype Option<+T> = None | Some(value: T)
}
