/** An optional value: the dispatcher loop writes a reply for some inbound messages and not for others. */
module Options {
  datatype Option<+T> = None | Some(value: T)

  /** The value `o` holds, as a sequence of none or one element. */
  function Elems<T>(o: Option<T>): (r: seq<T>)
    ensures |r| <= 1 && (o.Some? <==> |r| == 1) && (o.Some? ==> r[0] == o.value)
  {
    if o.Some? then [o.value] else []
  }
}
