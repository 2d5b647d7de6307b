/**
 * Standard Base64 (section 4 of RFC 4648) over the numeric values of bytes,
 * as `base64.b64encode` computes it: the input is cut into 6-bit values,
 * each is written as a character of the standard alphabet, and `=` pads the
 * output to a multiple of four characters. A decoder is its partner.
 */
module Base64 {
  import opened Bytes

  /** The standard alphabet `A-Za-z0-9+/` as the source writes it out. */
  const STANDARD: string :=
    "ABCDEFGHIJKLMNOP" + "QRSTUVWXYZabcdef" + "ghijklmnopqrstuv" + "wxyz0123456789+/"

  /** The padding character. */
  const PAD: char := '='

  /** The standard character for the 6-bit value `k`: `A-Z`, then `a-z`, then `0-9`, then `+` and `/`. */
  function Char(k: int): (c: char)
    requires 0 <= k < 64
  {
    if k < 26 then ('A' as int + k) as char
    else if k < 52 then ('a' as int + (k - 26)) as char
    else if k < 62 then ('0' as int + (k - 52)) as char
    else if k == 62 then '+'
    else '/'
  }

  /** The position of `c` in the standard alphabet, if it occurs there. */
  function StdIndex(c: char): (k: Option<int>)
    ensures k.Some? ==> 0 <= k.value < 64
  {
    if 'A' <= c <= 'Z' then Some(c as int - 'A' as int)
    else if 'a' <= c <= 'z' then Some(c as int - 'a' as int + 26)
    else if '0' <= c <= '9' then Some(c as int - '0' as int + 52)
    else if c == '+' then Some(62)
    else if c == '/' then Some(63)
    else None
  }

  /** A 6-bit value is written as a standard character, never as `=`, and `StdIndex` reads it back. */
  lemma CharRoundTrip(k: int)
    requires 0 <= k < 64
    ensures StdIndex(Char(k)) == Some(k) && Char(k) != PAD
  {
  }

  /** A character that `StdIndex` places is the character written for that position. */
  lemma StdIndexRoundTrip(c: char)
    ensures StdIndex(c).Some? ==> Char(StdIndex(c).value) == c
    ensures StdIndex(PAD) == None
  {
  }

  /** The literal alphabet of the source is the table `Char` describes. */
  lemma StandardIsChar(k: int)
    requires 0 <= k < 64
    ensures |STANDARD| == 64 && STANDARD[k] == Char(k)
  {
    assert k == 0 || k == 1 || k == 2 || k == 3 || k == 4 || k == 5 || k == 6 || k == 7
      || k == 8 || k == 9 || k == 10 || k == 11 || k == 12 || k == 13 || k == 14 || k == 15
      || k == 16 || k == 17 || k == 18 || k == 19 || k == 20 || k == 21 || k == 22 || k == 23
      || k == 24 || k == 25 || k == 26 || k == 27 || k == 28 || k == 29 || k == 30 || k == 31
      || k == 32 || k == 33 || k == 34 || k == 35 || k == 36 || k == 37 || k == 38 || k == 39
      || k == 40 || k == 41 || k == 42 || k == 43 || k == 44 || k == 45 || k == 46 || k == 47
      || k == 48 || k == 49 || k == 50 || k == 51 || k == 52 || k == 53 || k == 54 || k == 55
      || k == 56 || k == 57 || k == 58 || k == 59 || k == 60 || k == 61 || k == 62 || k == 63;
  }

  /** `StdIndex(c)` is the position of `c` in the source's alphabet string, and `None` exactly for other characters. */
  lemma StdIndexFindsStandard(c: char)
    ensures StdIndex(c).Some? <==> c in STANDARD
    ensures StdIndex(c).Some? ==> STANDARD[StdIndex(c).value] == c
  {
    if StdIndex(c).Some? {
      StandardIsChar(StdIndex(c).value);
    }
    if c in STANDARD {
      StandardIsChar(0);
      var k :| 0 <= k < 64 && STANDARD[k] == c;
      StandardIsChar(k);
      CharRoundTrip(k);
    }
  }

  /** Every element of `v` is the value of a byte. */
  ghost predicate ByteValues(v: seq<int>)
  {
    forall i :: 0 <= i < |v| ==> 0 <= v[i] < 256
  }

  /** The four 6-bit values of a full group of three bytes. */
  function Split3(b0: int, b1: int, b2: int): (ks: seq<int>)
  {
    [b0 / 4, (b0 % 4) * 16 + b1 / 16, (b1 % 16) * 4 + b2 / 64, b2 % 64]
  }

  /** The three 6-bit values of a final group of two bytes, the last one padded with zero bits. */
  function Split2(b0: int, b1: int): (ks: seq<int>)
  {
    [b0 / 4, (b0 % 4) * 16 + b1 / 16, (b1 % 16) * 4]
  }

  /** The two 6-bit values of a final single byte, the last one padded with zero bits. */
  function Split1(b0: int): (ks: seq<int>)
  {
    [b0 / 4, (b0 % 4) * 16]
  }

  /** The 6-bit values of `v`: four per group of three bytes, three or two for a final short group. */
  function Sextets(v: seq<int>): (ks: seq<int>)
    decreases |v|
  {
    if |v| == 0 then []
    else if |v| == 1 then Split1(v[0])
    else if |v| == 2 then Split2(v[0], v[1])
    else Split3(v[0], v[1], v[2]) + Sextets(v[3..])
  }

  /** Every started group of three bytes gives one more 6-bit value than it has bytes, and each value is below 64. */
  lemma {:induction false} SextetsShape(v: seq<int>)
    requires ByteValues(v)
    ensures |Sextets(v)| == |v| + (|v| + 2) / 3
    ensures forall i :: 0 <= i < |Sextets(v)| ==> 0 <= Sextets(v)[i] < 64
    decreases |v|
  {
    if |v| >= 3 {
      SextetsShape(v[3..]);
      var g, ks := Split3(v[0], v[1], v[2]), Sextets(v[3..]);
      assert Sextets(v) == g + ks;
      forall i | 0 <= i < |g + ks| ensures 0 <= (g + ks)[i] < 64 {
        if i >= 4 {
          assert (g + ks)[i] == ks[i - 4];
        }
      }
    }
  }

  /** Each 6-bit value written as its standard character. */
  function Chars(ks: seq<int>): (s: string)
    requires forall i :: 0 <= i < |ks| ==> 0 <= ks[i] < 64
    ensures |s| == |ks|
  {
    seq(|ks|, i requires 0 <= i < |ks| => Char(ks[i]))
  }

  /** The number of `=` that close the encoding of `n` bytes. */
  function Padding(n: nat): (p: nat)
    ensures p < 3
    ensures p == 0 <==> n % 3 == 0
  {
    (3 - n % 3) % 3
  }

  /** `p` padding characters. */
  function Pads(p: nat): (s: string)
    ensures |s| == p && forall i :: 0 <= i < p ==> s[i] == PAD
  {
    seq(p, _ => PAD)
  }

  /** The 6-bit values and the padding of `n` bytes fill a whole number of 4-character groups. */
  lemma EncodedLength(n: nat)
    ensures n + (n + 2) / 3 + Padding(n) == 4 * ((n + 2) / 3)
  {
    var q := n / 3;
    assert n == 3 * q || n == 3 * q + 1 || n == 3 * q + 2;
  }

  /** `base64.b64encode(data)` for the byte values `v`: four characters for every started group of three bytes. */
  function Encode(v: seq<int>): (r: string)
    requires ByteValues(v)
    ensures |r| == 4 * ((|v| + 2) / 3)
  {
    SextetsShape(v);
    EncodedLength(|v|);
    Chars(Sextets(v)) + Pads(Padding(|v|))
  }

  /**
   * The shape of the standard encoding: `=` occurs exactly in the last
   * `Padding(|d|)` positions, and every other character is a standard one.
   */
  lemma EncodeShape(d: seq<int>)
    requires ByteValues(d)
    ensures forall i :: 0 <= i < |Encode(d)| ==>
      (Encode(d)[i] == PAD <==> i >= |Encode(d)| - Padding(|d|))
    ensures forall i :: 0 <= i < |Encode(d)| && Encode(d)[i] != PAD ==> StdIndex(Encode(d)[i]).Some?
  {
    var ks := Sextets(d);
    SextetsShape(d);
    forall i | 0 <= i < |ks| ensures Encode(d)[i] == Char(ks[i]) && StdIndex(Encode(d)[i]).Some? && Encode(d)[i] != PAD {
      CharRoundTrip(ks[i]);
    }
  }

  /** With a whole number of groups there is no padding at all. */
  lemma EncodeNoPad(d: seq<int>)
    requires ByteValues(d) && |d| % 3 == 0
    ensures PAD !in Encode(d)
  {
    EncodeShape(d);
  }

  /** The standard positions of the characters of `q`, if all of them are standard characters. */
  function Indices(q: string): Option<seq<int>>
  {
    if q == [] then Some([])
    else match (StdIndex(q[0]), Indices(q[1..]))
      case (Some(k), Some(ks)) => Some([k] + ks)
      case _ => None
  }

  /** Three bytes from four 6-bit values. */
  function Join4(k0: int, k1: int, k2: int, k3: int): seq<int>
  {
    [k0 * 4 + k1 / 16, (k1 % 16) * 16 + k2 / 4, (k2 % 4) * 64 + k3]
  }

  /** Two bytes from a final three 6-bit values; the low bits of the last one are dropped. */
  function Join3(k0: int, k1: int, k2: int): seq<int>
  {
    [k0 * 4 + k1 / 16, (k1 % 16) * 16 + k2 / 4]
  }

  /** One byte from a final two 6-bit values; the low bits of the second one are dropped. */
  function Join2(k0: int, k1: int): seq<int>
  {
    [k0 * 4 + k1 / 16]
  }

  /** Rejoins 6-bit values into byte values: four make three bytes, a final three make two, a final two make one. */
  function Join(ks: seq<int>): (r: Option<seq<int>>)
    decreases |ks|
  {
    if |ks| == 0 then Some([])
    else if |ks| == 1 then None
    else if |ks| == 2 then Some(Join2(ks[0], ks[1]))
    else if |ks| == 3 then Some(Join3(ks[0], ks[1], ks[2]))
    else
      match Join(ks[4..])
      case Some(rest) => Some(Join4(ks[0], ks[1], ks[2], ks[3]) + rest)
      case None => None
  }

  /** How many `=` close `s`: two, one or none. */
  function Trailing(s: string): (p: nat)
    ensures p <= 2 && p <= |s|
  {
    if |s| >= 2 && s[|s| - 1] == PAD && s[|s| - 2] == PAD then 2
    else if |s| >= 1 && s[|s| - 1] == PAD then 1
    else 0
  }

  /** Decodes standard Base64 text to byte values; `None` for text that no byte sequence encodes to. */
  function Decode(s: string): (r: Option<seq<int>>)
  {
    if |s| % 4 != 0 then None
    else
      match Indices(s[..|s| - Trailing(s)])
      case Some(ks) => Join(ks)
      case None => None
  }

  /** `Indices` reads back a sequence of standard characters. */
  lemma {:induction false} IndicesOfChars(ks: seq<int>)
    requires forall i :: 0 <= i < |ks| ==> 0 <= ks[i] < 64
    ensures Indices(Chars(ks)) == Some(ks)
  {
    if ks != [] {
      CharRoundTrip(ks[0]);
      IndicesOfChars(ks[1..]);
      assert Chars(ks)[1..] == Chars(ks[1..]);
      assert ks == [ks[0]] + ks[1..];
    }
  }

  /** The arithmetic of `Join4` undoes the bit splitting of a full group. */
  lemma Rejoin3(b0: int, b1: int, b2: int)
    requires 0 <= b0 < 256 && 0 <= b1 < 256 && 0 <= b2 < 256
    ensures var g := Split3(b0, b1, b2); Join4(g[0], g[1], g[2], g[3]) == [b0, b1, b2]
  {
  }

  /** The arithmetic of `Join3` undoes the bit splitting of a final two-byte group. */
  lemma Rejoin2(b0: int, b1: int)
    requires 0 <= b0 < 256 && 0 <= b1 < 256
    ensures var g := Split2(b0, b1); Join3(g[0], g[1], g[2]) == [b0, b1]
  {
  }

  /** The arithmetic of `Join2` undoes the bit splitting of a final single byte. */
  lemma Rejoin1(b0: int)
    requires 0 <= b0 < 256
    ensures var g := Split1(b0); Join2(g[0], g[1]) == [b0]
  {
  }

  /** `Join` undoes `Sextets` on a full group of three bytes, given that it does so on the rest. */
  lemma JoinFullGroup(b0: int, b1: int, b2: int, rest: seq<int>)
    requires 0 <= b0 < 256 && 0 <= b1 < 256 && 0 <= b2 < 256
    requires Join(Sextets(rest)) == Some(rest)
    ensures Join(Sextets([b0, b1, b2] + rest)) == Some([b0, b1, b2] + rest)
  {
    var v, g, ks := [b0, b1, b2] + rest, Split3(b0, b1, b2), Sextets(rest);
    assert v[0] == b0 && v[1] == b1 && v[2] == b2 && v[3..] == rest;
    assert Sextets(v) == g + ks;
    Rejoin3(b0, b1, b2);
    JoinCons(g, ks);
  }

  /** `Join` turns a leading group of four 6-bit values into three bytes ahead of the rest. */
  lemma JoinCons(g: seq<int>, ks: seq<int>)
    requires |g| == 4 && Join(ks).Some?
    ensures Join(g + ks) == Some(Join4(g[0], g[1], g[2], g[3]) + Join(ks).value)
  {
    assert (g + ks)[4..] == ks;
  }

  /** Rejoining the 6-bit values of `v` gives back `v`. */
  lemma {:induction false} JoinSextets(v: seq<int>)
    requires ByteValues(v)
    ensures Join(Sextets(v)) == Some(v)
    decreases |v|
  {
    if |v| == 1 {
      Rejoin1(v[0]);
      assert v == [v[0]];
    } else if |v| == 2 {
      Rejoin2(v[0], v[1]);
      assert v == [v[0], v[1]];
    } else if |v| >= 3 {
      JoinSextets(v[3..]);
      JoinFullGroup(v[0], v[1], v[2], v[3..]);
      assert v == [v[0], v[1], v[2]] + v[3..];
    }
  }

  /** Behind standard characters, `Trailing` counts exactly the `=` appended, and stripping them leaves the characters. */
  lemma TrailingOfChars(ks: seq<int>, p: nat)
    requires forall i :: 0 <= i < |ks| ==> 0 <= ks[i] < 64
    requires p <= 2
    ensures Trailing(Chars(ks) + Pads(p)) == p
    ensures (Chars(ks) + Pads(p))[..|ks|] == Chars(ks)
  {
    var c := Chars(ks);
    var r := c + Pads(p);
    if ks != [] {
      CharRoundTrip(ks[|ks| - 1]);
      assert r[|ks| - 1] == c[|ks| - 1] != PAD;
    }
    assert r[..|ks|] == c;
  }

  /** `Trailing` counts exactly the padding that `Encode` appended. */
  lemma TrailingOfEncode(d: seq<int>)
    requires ByteValues(d)
    ensures Trailing(Encode(d)) == Padding(|d|)
  {
    SextetsShape(d);
    TrailingOfChars(Sextets(d), Padding(|d|));
  }

  /** Stripping the padding of the encoding leaves standard characters that read back as the 6-bit values. */
  lemma IndicesOfEncode(d: seq<int>)
    requires ByteValues(d)
    ensures Indices(Encode(d)[..|Encode(d)| - Padding(|d|)]) == Some(Sextets(d))
  {
    SextetsShape(d);
    TrailingOfChars(Sextets(d), Padding(|d|));
    assert Encode(d)[..|Encode(d)| - Padding(|d|)] == Chars(Sextets(d));
    IndicesOfChars(Sextets(d));
  }

  /** `Decode` of whole groups whose stripped characters read back as `ks` is whatever `Join` makes of `ks`. */
  lemma DecodeOf(r: string, ks: seq<int>)
    requires |r| % 4 == 0 && Indices(r[..|r| - Trailing(r)]) == Some(ks)
    ensures Decode(r) == Join(ks)
  {
  }

  /** Decoding the standard encoding gives back the byte values. */
  lemma DecodeEncode(d: seq<int>)
    requires ByteValues(d)
    ensures Decode(Encode(d)) == Some(d)
  {
    TrailingOfEncode(d);
    IndicesOfEncode(d);
    JoinSextets(d);
    DecodeOf(Encode(d), Sextets(d));
  }
}
