/** A value that a JSON body or a route parameter may leave out. */
module Optional {

  datatype Option<+T> = None | Some(value: T)

  /** JavaScript truthiness of a string-valued field: present and not the empty string. */
  predicate Present(f: Option<string>)
  {
    f.Some? && f.value != ""
  }
}
