/** The optional value used for board cells (`null` or a colour) and for
    results that the game code leaves `undefined`. */
module Wrappers {

  datatype Option<+T> = None | Some(value: T)
}
