/** Values that may be absent. */
module Options {
  datatype Option<+T> = None | Some(value: T) {
    function GetOr(default: T): T {
      if this.None? then default else value
    }
  }
}
