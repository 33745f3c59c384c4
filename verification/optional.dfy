/** The outcome of a conversion that may fail: the model's stand-in for a Python
    call that can raise and whose caller catches the exception. */
module Optional {

  datatype Option<T> = None | Some(value: T)
  {
    function GetOr(default: T): (r: T)
      ensures this.Some? ==> r == this.value
      ensures this.None? ==> r == default
    {
      match this
      case Some(v) => v
      case None => default
    }
  }
}
