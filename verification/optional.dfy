/** An optional value: PHP's `null` versus a present value. */
module Optional {

  datatype Option<+T> = None | Some(value: T) {

    /** Applies `f` to a present value; `None` stays `None`. */
    function Map<U>(f: T -> U): (r: Option<U>)
      ensures r.Some? <==> this.Some?
      ensures r.Some? ==> r.value == f(this.value)
    {
      match this
      case None => None
      case Some(v) => Some(f(v))
    }
  }
}
