/** Small shared vocabulary: bytes, optional values and a minimum. */
module Common {

  /** One octet of the archive stream. */
  newtype byte = b: int | 0 <= b < 256

  /** A value that may be absent (a C# null reference). */
  datatype Option<T> = None | Some(value: T)

  function Min(a: int, b: int): (m: int)
    ensures m <= a && m <= b
    ensures m == a || m == b
  {
    if a <= b then a else b
  }

  lemma AppendAssoc<T>(a: seq<T>, b: seq<T>, c: seq<T>)
    ensures a + (b + c) == (a + b) + c
  {
  }

  lemma AppendEmpty<T>(a: seq<T>)
    ensures a + [] == a && [] + a == a
  {
  }
}
