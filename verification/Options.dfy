module Options {
  datatype Option<T> = None | Some(value: T) {
    function UnwrapOr(default: T): T { if Some? then value else default }
  }
}
