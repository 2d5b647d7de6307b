/** Bytes and the optional-value wrapper shared by the model. */
module Bytes {

  /** One element of a Python `bytes` or `bytearray`. */
  type Byte = bv8

  datatype Option<T> = None | Some(value: T)

  /** The numbers 0..255 that the bytes of `d` stand for, as `list(d)` shows them. */
  function Values(d: seq<Byte>): (v: seq<int>)
    ensures |v| == |d|
    ensures forall i :: 0 <= i < |d| ==> 0 <= v[i] < 256
  {
    seq(|d|, i requires 0 <= i < |d| => d[i] as int)
  }

  /** Different byte sequences stand for different numbers. */
  lemma ValuesInjective(a: seq<Byte>, b: seq<Byte>)
    requires Values(a) == Values(b)
    ensures a == b
  {
    forall i | 0 <= i < |a| ensures a[i] == b[i] {
      assert Values(a)[i] == Values(b)[i];
    }
  }
}
