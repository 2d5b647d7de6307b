/** The fixed byte reordering `RIGHT_INDEX` of the a_bogus signer. */
module Permutation {
  import opened Bytes

  /** Number of bytes in the signed record. */
  const RECORD_LENGTH: int := 29

  /** `RIGHT_INDEX`: output position `i` takes the record byte at `RIGHT_INDEX[i]`. */
  const RIGHT_INDEX: seq<int> :=
    [0, 1, 5, 9, 13, 17, 19, 21, 2, 6, 10, 14, 18, 20, 22,
     3, 7, 11, 15, 4, 8, 12, 16, 23, 24, 25, 26, 27, 28]

  /** The inverse table: record byte `k` lands at output position `INVERSE[k]`. */
  const INVERSE: seq<int> :=
    [0, 1, 8, 15, 19, 2, 9, 16, 20, 3, 10, 17, 21, 4, 11,
     18, 22, 5, 12, 6, 13, 7, 14, 23, 24, 25, 26, 27, 28]

  /** `f` maps positions 0..n-1 onto 0..n-1 and `g` undoes it on both sides. */
  ghost predicate Inverses(f: seq<int>, g: seq<int>, n: int)
  {
    |f| == n && |g| == n
    && (forall i :: 0 <= i < n ==> 0 <= f[i] < n && g[f[i]] == i)
    && (forall k :: 0 <= k < n ==> 0 <= g[k] < n && f[g[k]] == k)
  }

  /** `RIGHT_INDEX` is a permutation of 0..28, and `INVERSE` is its inverse. */
  lemma RightIndexIsPermutation()
    ensures Inverses(RIGHT_INDEX, INVERSE, RECORD_LENGTH)
  {
    forall i | 0 <= i < 29
      ensures 0 <= RIGHT_INDEX[i] < 29 && INVERSE[RIGHT_INDEX[i]] == i
      ensures 0 <= INVERSE[i] < 29 && RIGHT_INDEX[INVERSE[i]] == i
    {
      InverseUndoesRightIndex(i);
      RightIndexUndoesInverse(i);
    }
  }

  /** `INVERSE` undoes `RIGHT_INDEX` at output position `i`. */
  lemma InverseUndoesRightIndex(i: int)
    requires 0 <= i < 29
    ensures 0 <= RIGHT_INDEX[i] < 29 && INVERSE[RIGHT_INDEX[i]] == i
  {
    assert i == 0 || i == 1 || i == 2 || i == 3 || i == 4 || i == 5 || i == 6 || i == 7
      || i == 8 || i == 9 || i == 10 || i == 11 || i == 12 || i == 13 || i == 14 || i == 15
      || i == 16 || i == 17 || i == 18 || i == 19 || i == 20 || i == 21 || i == 22 || i == 23
      || i == 24 || i == 25 || i == 26 || i == 27 || i == 28;
  }

  /** `RIGHT_INDEX` undoes `INVERSE` at record position `i`. */
  lemma RightIndexUndoesInverse(i: int)
    requires 0 <= i < 29
    ensures 0 <= INVERSE[i] < 29 && RIGHT_INDEX[INVERSE[i]] == i
  {
    assert i == 0 || i == 1 || i == 2 || i == 3 || i == 4 || i == 5 || i == 6 || i == 7
      || i == 8 || i == 9 || i == 10 || i == 11 || i == 12 || i == 13 || i == 14 || i == 15
      || i == 16 || i == 17 || i == 18 || i == 19 || i == 20 || i == 21 || i == 22 || i == 23
      || i == 24 || i == 25 || i == 26 || i == 27 || i == 28;
  }

  /** No two output positions read the same record byte. */
  lemma RightIndexInjective(i: int, j: int)
    requires 0 <= i < RECORD_LENGTH && 0 <= j < RECORD_LENGTH
    ensures RIGHT_INDEX[i] == RIGHT_INDEX[j] <==> i == j
  {
    RightIndexIsPermutation();
  }

  /** The last six positions (the timestamp `ts1`, the constant 3 and the checksum) stay in place. */
  lemma RightIndexFixedPoints(i: int)
    requires 23 <= i < RECORD_LENGTH
    ensures RIGHT_INDEX[i] == i
  {
    assert i == 23 || i == 24 || i == 25 || i == 26 || i == 27 || i == 28;
  }

  /** The reordered record `data` of the loop `data[i] = to_sign[RIGHT_INDEX[i]]`. */
  function Permute(s: seq<Byte>): (r: seq<Byte>)
    requires |s| == RECORD_LENGTH
    ensures |r| == RECORD_LENGTH
  {
    seq(RECORD_LENGTH, i requires 0 <= i < RECORD_LENGTH => s[RIGHT_INDEX[i]])
  }

  /** Undoes `Permute` through the inverse table. */
  function Unpermute(r: seq<Byte>): (s: seq<Byte>)
    requires |r| == RECORD_LENGTH
    ensures |s| == RECORD_LENGTH
  {
    seq(RECORD_LENGTH, k requires 0 <= k < RECORD_LENGTH => r[INVERSE[k]])
  }

  /** Reordering loses nothing: `Unpermute` recovers the record. */
  lemma UnpermutePermute(s: seq<Byte>)
    requires |s| == RECORD_LENGTH
    ensures Unpermute(Permute(s)) == s
  {
    RightIndexIsPermutation();
  }

  /** Every 29-byte sequence is the reordering of exactly one record. */
  lemma PermuteUnpermute(r: seq<Byte>)
    requires |r| == RECORD_LENGTH
    ensures Permute(Unpermute(r)) == r
  {
    RightIndexIsPermutation();
  }

  /** Reordering keeps the multiset of bytes. */
  lemma PermuteMultiset(s: seq<Byte>)
    requires |s| == RECORD_LENGTH
    ensures multiset(Permute(s)) == multiset(s)
  {
    RightIndexIsPermutation();
    assert ReadsThrough(s, Permute(s), RIGHT_INDEX);
    ReorderMultiset(s, Permute(s), RIGHT_INDEX, INVERSE);
  }

  /** A sequence read through a bijection of its positions has the same multiset of elements. */
  lemma {:induction false} ReorderMultiset(s: seq<Byte>, t: seq<Byte>, f: seq<int>, g: seq<int>)
    requires Inverses(f, g, |s|) && ReadsThrough(s, t, f)
    ensures multiset(t) == multiset(s)
  {
    if |s| > 0 {
      var n := |s| - 1;
      var j := g[n];
      InversesShrink(f, g, |s|);
      ReadShrink(s, t, f, g, n, j);
      ReorderMultiset(Without(s, n), Without(t, j), Without(f, j), Renumber(g, j, n));
      MultisetOfWithout(t, j);
      MultisetOfWithout(s, n);
    }
  }

  /** `t` is `s` read through the position map `f`. */
  ghost predicate ReadsThrough(s: seq<Byte>, t: seq<Byte>, f: seq<int>)
  {
    |t| == |f| && forall i :: 0 <= i < |t| ==> 0 <= f[i] < |s| && t[i] == s[f[i]]
  }

  /** `s` with the element at position `j` taken out. */
  function Without<T>(s: seq<T>, j: int): (r: seq<T>)
    requires 0 <= j < |s|
    ensures |r| == |s| - 1
    ensures forall i :: 0 <= i < |r| ==> r[i] == if i < j then s[i] else s[i + 1]
  {
    s[..j] + s[j + 1..]
  }

  /** The first `n` entries of `g`, with every position past `j` moved down by one. */
  function Renumber(g: seq<int>, j: int, n: int): (r: seq<int>)
    requires 0 <= n <= |g|
    ensures |r| == n
    ensures forall k :: 0 <= k < n ==> r[k] == if g[k] < j then g[k] else g[k] - 1
  {
    seq(n, k requires 0 <= k < n => if g[k] < j then g[k] else g[k] - 1)
  }

  /** Dropping the position that maps to the last one leaves a bijection one smaller. */
  lemma InversesShrink(f: seq<int>, g: seq<int>, m: int)
    requires Inverses(f, g, m) && m > 0
    ensures Inverses(Without(f, g[m - 1]), Renumber(g, g[m - 1], m - 1), m - 1)
  {
    var n, j := m - 1, g[m - 1];
    var f', g' := Without(f, j), Renumber(g, j, n);
    forall i | 0 <= i < n
      ensures 0 <= f'[i] < n && g'[f'[i]] == i
    {
      var i2 := if i < j then i else i + 1;
      assert f'[i] == f[i2];
      assert f[i2] != n;
    }
    forall k | 0 <= k < n
      ensures 0 <= g'[k] < n && f'[g'[k]] == k
    {
      assert g[k] != j;
    }
  }

  /** Reading through the shrunk bijection agrees with reading through the original. */
  lemma ReadShrink(s: seq<Byte>, t: seq<Byte>, f: seq<int>, g: seq<int>, n: int, j: int)
    requires Inverses(f, g, |s|) && ReadsThrough(s, t, f)
    requires n == |s| - 1 && n >= 0 && j == g[n]
    ensures ReadsThrough(Without(s, n), Without(t, j), Without(f, j))
    ensures t[j] == s[n]
  {
    var t', f' := Without(t, j), Without(f, j);
    forall i | 0 <= i < n
      ensures 0 <= f'[i] < n && t'[i] == Without(s, n)[f'[i]]
    {
      var i2 := if i < j then i else i + 1;
      assert f[i2] != n;
    }
  }

  /** Taking out one element takes one copy of it out of the multiset. */
  lemma MultisetOfWithout(t: seq<Byte>, j: int)
    requires 0 <= j < |t|
    ensures multiset(t) == multiset(Without(t, j)) + multiset{t[j]}
  {
    assert t == t[..j] + [t[j]] + t[j + 1..];
  }
}
