/** The XOR checksum `_xor_sum` that closes the a_bogus record. */
module Checksum {
  import opened Bytes

  /** The XOR of the first `n` bytes of `s`, folded from the left; 0 for none. */
  function XorPrefix(s: seq<Byte>, n: nat): Byte
    requires n <= |s|
  {
    if n == 0 then 0 else XorPrefix(s, n - 1) ^ s[n - 1]
  }

  /** The XOR of all bytes of `s`. */
  function XorFold(s: seq<Byte>): Byte
  {
    XorPrefix(s, |s|)
  }

  /**
   * `_xor_sum`: starts from `arr[0]` and XORs in every later element. The
   * source reads `arr[0]`, so an empty argument is an error there.
   */
  method XorSum(arr: seq<Byte>) returns (result: Byte)
    requires |arr| > 0
    ensures result == XorFold(arr)
  {
    result := arr[0];
    for i := 1 to |arr|
      invariant result == XorPrefix(arr, i)
    {
      result := result ^ arr[i];
    }
  }

  /** A prefix fold only looks at the bytes it covers. */
  lemma {:induction false} XorPrefixAgree(s: seq<Byte>, u: seq<Byte>, n: nat)
    requires n <= |s| && n <= |u|
    requires forall i :: 0 <= i < n ==> s[i] == u[i]
    ensures XorPrefix(s, n) == XorPrefix(u, n)
  {
    if n > 0 {
      XorPrefixAgree(s, u, n - 1);
    }
  }

  /** Folding past the end of `s` into `t` continues with the fold of `t`. */
  lemma {:induction false} XorPrefixConcat(s: seq<Byte>, t: seq<Byte>, n: nat)
    requires n <= |t|
    ensures XorPrefix(s + t, |s| + n) == XorFold(s) ^ XorPrefix(t, n)
  {
    if n == 0 {
      XorPrefixAgree(s + t, s, |s|);
    } else {
      XorPrefixConcat(s, t, n - 1);
      assert (s + t)[|s| + n - 1] == t[n - 1];
    }
  }

  /** The checksum of a concatenation is the XOR of the two checksums. */
  lemma XorFoldAppend(s: seq<Byte>, t: seq<Byte>)
    ensures XorFold(s + t) == XorFold(s) ^ XorFold(t)
  {
    XorPrefixConcat(s, t, |t|);
  }

  /** Appending one byte XORs it into the checksum. */
  lemma XorFoldSnoc(s: seq<Byte>, x: Byte)
    ensures XorFold(s + [x]) == XorFold(s) ^ x
  {
    XorPrefixAgree(s + [x], s, |s|);
  }

  /** Appending the checksum of a record makes the XOR of the whole record 0. */
  lemma ChecksumCloses(s: seq<Byte>)
    ensures XorFold(s + [XorFold(s)]) == 0
  {
    XorFoldSnoc(s, XorFold(s));
  }

  /** Taking one byte out of a record XORs it out of the checksum. */
  lemma XorFoldRemove(b: seq<Byte>, j: nat)
    requires j < |b|
    ensures XorFold(b) == XorFold(b[..j] + b[j + 1..]) ^ b[j]
  {
    assert b == b[..j] + [b[j]] + b[j + 1..];
    XorFoldMiddle(b[..j], b[j], b[j + 1..]);
  }

  /** A byte between `p` and `q` contributes to the checksum by one XOR. */
  lemma XorFoldMiddle(p: seq<Byte>, x: Byte, q: seq<Byte>)
    ensures XorFold(p + [x] + q) == XorFold(p + q) ^ x
  {
    XorFoldAppend(p + [x], q);
    XorFoldSnoc(p, x);
    XorFoldAppend(p, q);
    XorRegroup(XorFold(p + [x] + q), XorFold(p + [x]), XorFold(q), XorFold(p), XorFold(p + q), x);
  }

  /** XOR is associative and commutative: the byte `x` can be taken out last. */
  lemma XorRegroup(all: Byte, left: Byte, right: Byte, p: Byte, rest: Byte, x: Byte)
    requires all == left ^ right && left == p ^ x && rest == p ^ right
    ensures all == rest ^ x
  {
  }

  /** The checksum does not depend on the order of the bytes. */
  lemma {:induction false} XorFoldMultiset(a: seq<Byte>, b: seq<Byte>)
    requires multiset(a) == multiset(b)
    ensures XorFold(a) == XorFold(b)
  {
    if a == [] {
      assert |b| == |multiset(b)| == 0;
    } else {
      var n := |a| - 1;
      var x := a[n];
      assert a == a[..n] + [x];
      assert x in multiset(b);
      var j :| 0 <= j < |b| && b[j] == x;
      var b' := b[..j] + b[j + 1..];
      MultisetRemove(b, j);
      assert multiset(a[..n]) == multiset(a) - multiset{x};
      XorFoldMultiset(a[..n], b');
      XorFoldSnoc(a[..n], x);
      XorFoldRemove(b, j);
    }
  }

  /** Taking the byte at `j` out of `b` takes one copy of it out of the multiset. */
  lemma MultisetRemove(b: seq<Byte>, j: nat)
    requires j < |b|
    ensures multiset(b[..j] + b[j + 1..]) == multiset(b) - multiset{b[j]}
  {
    assert b == b[..j] + [b[j]] + b[j + 1..];
  }
}
