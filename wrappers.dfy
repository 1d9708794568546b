/** An optional value, used for the persisted favourites and the optional menu item fields. */
module Wrappers {

  datatype Option<+T> = None | Some(value: T)
}
