/** The optional value returned by lookups that may find nothing
    (`select_one`, `find`, `re.search`). */
module Wrappers {

  datatype Option<+T> = None | Some(value: T)
}
