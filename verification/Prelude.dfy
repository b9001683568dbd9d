/** What several modules need: optional values and C's 32-bit int. */
module Prelude {
  datatype Option<T> = None | Some(value: T)

  const TWO31: int := 0x8000_0000

  /** A value stored in an int. */
  function Int(x: int): (r: int)
    ensures -TWO31 <= r < TWO31
  {
    (x + TWO31) % (2 * TWO31) - TWO31
  }

  lemma IntExact(x: int)
    ensures Int(x) == x <==> -TWO31 <= x < TWO31
  {
  }
}
