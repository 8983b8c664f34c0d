/** The optional value used wherever the filters see "maybe absent" data:
    a lookup that misses, a file that cannot be read or parsed, a search
    that finds nothing. */
module Wrappers {
  datatype Option<+T> = None | Some(value: T)
}
