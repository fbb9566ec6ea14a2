/** Bytes and sequences of them. */
module Bytes {
  type Byte = b: nat | b < 256
  type Bytes = seq<Byte>

  datatype Option<T> = None | Some(value: T)

  lemma Regroup<T>(a: seq<T>, b: seq<T>, c: seq<T>)
    ensures a + b + c == a + (b + c)
  {
  }
}
