/** An optional value: a regex match that may fail, a file that may be unreadable. */
module Optional {

  datatype Option<+T> = None | Some(value: T)

}
