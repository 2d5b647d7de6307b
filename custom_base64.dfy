/**
 * `CustomBase64` of the a_bogus signer: standard Base64, then a character
 * substitution `str.maketrans(standard, alphabet)` onto a private 64-character
 * alphabet. Characters outside the standard alphabet, `=` among them, pass
 * through `str.translate` unchanged.
 */
module CustomBase64 {
  import opened Bytes
  import Base64

  /** `BASE64_VARIATION1`, the alphabet for the user-agent digest input. */
  const VARIATION1: string :=
    "ckdp1h4ZKsUB80/M" + "fvw36XIgR25+WQAl" + "Ei7NLboqYTOPuzmF" + "jJnryx9HVGDaStCe"

  /** `BASE64_VARIATION2`, the alphabet of the final token. */
  const VARIATION2: string :=
    "Dkdpgh2ZmsQB80/M" + "fvV36XI1R45-WUAl" + "EixNLwoqYTOPuzKF" + "jJnry79HbGcaStCe"

  /**
   * An alphabet the substitution can be undone for: 64 characters (as
   * `str.maketrans` demands of its two arguments), all distinct, and no `=`.
   */
  ghost predicate ValidAlphabet(a: string)
  {
    |a| == 64 && Base64.PAD !in a &&
    forall i, j :: 0 <= i < |a| && 0 <= j < |a| && a[i] == a[j] ==> i == j
  }

  /** The translation of one character: the standard character of 6-bit value `k` becomes `alphabet[k]`. */
  function TranslateChar(alphabet: string, c: char): (r: char)
    requires |alphabet| == 64
    ensures c in Base64.STANDARD ==> exists k :: 0 <= k < 64 && Base64.STANDARD[k] == c && r == alphabet[k]
    ensures c !in Base64.STANDARD ==> r == c
  {
    Base64.StdIndexFindsStandard(c);
    match Base64.StdIndex(c)
    case Some(k) => alphabet[k]
    case None => c
  }

  /** `s.translate(str.maketrans(standard, alphabet))`. */
  function Translate(alphabet: string, s: string): (t: string)
    requires |alphabet| == 64
    ensures |t| == |s|
  {
    seq(|s|, i requires 0 <= i < |s| => TranslateChar(alphabet, s[i]))
  }

  /** `CustomBase64(alphabet).encode(data)`. */
  function Encode(alphabet: string, data: seq<Byte>): (r: string)
    requires |alphabet| == 64
    ensures |r| == 4 * ((|data| + 2) / 3)
  {
    Translate(alphabet, Base64.Encode(Values(data)))
  }

  /**
   * The table built by `str.maketrans`: the character at position `k` of the
   * standard alphabet string becomes `alphabet[k]`, and `=` stays `=`.
   */
  lemma TranslateMapsStandard(alphabet: string, s: string, i: int, k: int)
    requires |alphabet| == 64 && 0 <= i < |s| && 0 <= k < 64
    ensures s[i] == Base64.STANDARD[k] ==> Translate(alphabet, s)[i] == alphabet[k]
    ensures s[i] == Base64.PAD ==> Translate(alphabet, s)[i] == Base64.PAD
  {
    Base64.StandardIsChar(k);
    Base64.CharRoundTrip(k);
    Base64.StdIndexRoundTrip(s[i]);
  }

  /**
   * Where `=` stands in the output: exactly in the last `Padding` positions,
   * and every other character is drawn from the private alphabet.
   */
  lemma EncodeShape(alphabet: string, data: seq<Byte>)
    requires |alphabet| == 64 && Base64.PAD !in alphabet
    ensures forall i :: 0 <= i < |Encode(alphabet, data)| ==>
      (Encode(alphabet, data)[i] == Base64.PAD <==> i >= |Encode(alphabet, data)| - Base64.Padding(|data|))
    ensures forall i :: 0 <= i < |Encode(alphabet, data)| && Encode(alphabet, data)[i] != Base64.PAD ==>
      Encode(alphabet, data)[i] in alphabet
  {
    Base64.EncodeShape(Values(data));
    Base64.StdIndexRoundTrip(Base64.PAD);
  }

  /** With a whole number of 3-byte groups the output is made of alphabet characters only. */
  lemma EncodeInAlphabet(alphabet: string, data: seq<Byte>)
    requires |alphabet| == 64 && Base64.PAD !in alphabet && |data| % 3 == 0
    ensures forall i :: 0 <= i < |Encode(alphabet, data)| ==> Encode(alphabet, data)[i] in alphabet
  {
    EncodeShape(alphabet, data);
  }

  /** The first position of `c` in `a`, if any. */
  function IndexOf(a: string, c: char): (r: Option<nat>)
    ensures r.Some? ==> r.value < |a| && a[r.value] == c
    ensures r.None? ==> c !in a
  {
    if a == [] then None
    else if a[0] == c then Some(0)
    else match IndexOf(a[1..], c)
      case Some(k) => Some(k + 1)
      case None => None
  }

  /** The inverse substitution of one character: `alphabet[k]` back to the standard character of value `k`. */
  function UntranslateChar(alphabet: string, c: char): char
    requires |alphabet| == 64
  {
    match IndexOf(alphabet, c)
    case Some(k) => Base64.Char(k)
    case None => c
  }

  /** Decodes a token written in a private alphabet to byte values; `None` where standard decoding fails. */
  function Decode(alphabet: string, t: string): Option<seq<int>>
    requires |alphabet| == 64
  {
    Base64.Decode(seq(|t|, i requires 0 <= i < |t| => UntranslateChar(alphabet, t[i])))
  }

  /** Over a valid alphabet the inverse substitution restores every standard character and `=`. */
  lemma UntranslateTranslate(alphabet: string, c: char)
    requires ValidAlphabet(alphabet)
    requires Base64.StdIndex(c).Some? || c == Base64.PAD
    ensures UntranslateChar(alphabet, TranslateChar(alphabet, c)) == c
  {
    Base64.StdIndexRoundTrip(c);
  }

  /** Over a valid alphabet, decoding the custom encoding gives back the bytes. */
  lemma DecodeEncode(alphabet: string, data: seq<Byte>)
    requires ValidAlphabet(alphabet)
    ensures Decode(alphabet, Encode(alphabet, data)) == Some(Values(data))
  {
    var s := Base64.Encode(Values(data));
    var t := Encode(alphabet, data);
    var u := seq(|t|, i requires 0 <= i < |t| => UntranslateChar(alphabet, t[i]));
    Base64.EncodeShape(Values(data));
    forall i | 0 <= i < |s| ensures u[i] == s[i] {
      UntranslateTranslate(alphabet, s[i]);
    }
    assert u == s;
    Base64.DecodeEncode(Values(data));
  }

  /** A rank table over the first 128 code points that inverts an alphabet certifies that the alphabet is valid. */
  lemma RankCertificate(a: string, rank: seq<int>)
    requires |a| == 64 && |rank| == 128
    requires forall k :: 0 <= k < 64 ==> a[k] as int < 128 && rank[a[k] as int] == k
    requires rank[Base64.PAD as int] == -1
    ensures ValidAlphabet(a)
  {
    forall k | 0 <= k < 64 ensures a[k] != Base64.PAD {
      assert rank[a[k] as int] == k;
    }
  }

  const RANK1: seq<int> :=
    [-1, -1, -1, -1, -1, -1, -1, -1, -1, -1, -1, -1, -1, -1, -1, -1] +
    [-1, -1, -1, -1, -1, -1, -1, -1, -1, -1, -1, -1, -1, -1, -1, -1] +
    [-1, -1, -1, -1, -1, -1, -1, -1, -1, -1, -1, 27, -1, -1, -1, 14] +
    [13, 4, 25, 19, 6, 26, 20, 34, 12, 54, -1, -1, -1, -1, -1, -1] +
    [-1, 30, 11, 62, 58, 32, 47, 57, 55, 22, 49, 8, 36, 15, 35, 42] +
    [43, 29, 24, 60, 41, 10, 56, 28, 21, 40, 7, -1, -1, -1, -1, -1] +
    [-1, 59, 37, 0, 2, 63, 16, 23, 5, 33, 48, 1, 31, 46, 50, 38] +
    [3, 39, 51, 9, 61, 44, 17, 18, 53, 52, 45, -1, -1, -1, -1, -1]

  const RANK2: seq<int> :=
    [-1, -1, -1, -1, -1, -1, -1, -1, -1, -1, -1, -1, -1, -1, -1, -1] +
    [-1, -1, -1, -1, -1, -1, -1, -1, -1, -1, -1, -1, -1, -1, -1, -1] +
    [-1, -1, -1, -1, -1, -1, -1, -1, -1, -1, -1, -1, -1, 27, -1, 14] +
    [13, 23, 6, 19, 25, 26, 20, 53, 12, 54, -1, -1, -1, -1, -1, -1] +
    [-1, 30, 11, 62, 0, 32, 47, 57, 55, 22, 49, 46, 36, 15, 35, 42] +
    [43, 10, 24, 60, 41, 29, 18, 28, 21, 40, 7, -1, -1, -1, -1, -1] +
    [-1, 59, 56, 58, 2, 63, 16, 4, 5, 33, 48, 1, 31, 8, 50, 38] +
    [3, 39, 51, 9, 61, 44, 17, 37, 34, 52, 45, -1, -1, -1, -1, -1]

  /** Positions 0 to 15 of `BASE64_VARIATION1` are ASCII and `RANK1` maps them back. */
  lemma Rank1Row0()
    ensures forall k :: 0 <= k < 16 ==> VARIATION1[k] as int < 128 && RANK1[VARIATION1[k] as int] == k
  {
    forall k | 0 <= k < 16 ensures VARIATION1[k] as int < 128 && RANK1[VARIATION1[k] as int] == k {
      assert k == 0 || k == 1 || k == 2 || k == 3 || k == 4 || k == 5 || k == 6 || k == 7
        || k == 8 || k == 9 || k == 10 || k == 11 || k == 12 || k == 13 || k == 14 || k == 15;
    }
  }

  /** Positions 16 to 31 of `BASE64_VARIATION1` are ASCII and `RANK1` maps them back. */
  lemma Rank1Row1()
    ensures forall k :: 16 <= k < 32 ==> VARIATION1[k] as int < 128 && RANK1[VARIATION1[k] as int] == k
  {
    forall k | 16 <= k < 32 ensures VARIATION1[k] as int < 128 && RANK1[VARIATION1[k] as int] == k {
      assert k == 16 || k == 17 || k == 18 || k == 19 || k == 20 || k == 21 || k == 22 || k == 23
        || k == 24 || k == 25 || k == 26 || k == 27 || k == 28 || k == 29 || k == 30 || k == 31;
    }
  }

  /** Positions 32 to 47 of `BASE64_VARIATION1` are ASCII and `RANK1` maps them back. */
  lemma Rank1Row2()
    ensures forall k :: 32 <= k < 48 ==> VARIATION1[k] as int < 128 && RANK1[VARIATION1[k] as int] == k
  {
    forall k | 32 <= k < 48 ensures VARIATION1[k] as int < 128 && RANK1[VARIATION1[k] as int] == k {
      assert k == 32 || k == 33 || k == 34 || k == 35 || k == 36 || k == 37 || k == 38 || k == 39
        || k == 40 || k == 41 || k == 42 || k == 43 || k == 44 || k == 45 || k == 46 || k == 47;
    }
  }

  /** Positions 48 to 63 of `BASE64_VARIATION1` are ASCII and `RANK1` maps them back. */
  lemma Rank1Row3()
    ensures forall k :: 48 <= k < 64 ==> VARIATION1[k] as int < 128 && RANK1[VARIATION1[k] as int] == k
  {
    forall k | 48 <= k < 64 ensures VARIATION1[k] as int < 128 && RANK1[VARIATION1[k] as int] == k {
      assert k == 48 || k == 49 || k == 50 || k == 51 || k == 52 || k == 53 || k == 54 || k == 55
        || k == 56 || k == 57 || k == 58 || k == 59 || k == 60 || k == 61 || k == 62 || k == 63;
    }
  }

  /** `BASE64_VARIATION1` has 64 distinct characters and no `=`. */
  lemma Variation1Valid()
    ensures ValidAlphabet(VARIATION1)
  {
    Rank1Row0();
    Rank1Row1();
    Rank1Row2();
    Rank1Row3();
    RankCertificate(VARIATION1, RANK1);
  }

  /** Positions 0 to 15 of `BASE64_VARIATION2` are ASCII and `RANK2` maps them back. */
  lemma Rank2Row0()
    ensures forall k :: 0 <= k < 16 ==> VARIATION2[k] as int < 128 && RANK2[VARIATION2[k] as int] == k
  {
    forall k | 0 <= k < 16 ensures VARIATION2[k] as int < 128 && RANK2[VARIATION2[k] as int] == k {
      assert k == 0 || k == 1 || k == 2 || k == 3 || k == 4 || k == 5 || k == 6 || k == 7
        || k == 8 || k == 9 || k == 10 || k == 11 || k == 12 || k == 13 || k == 14 || k == 15;
    }
  }

  /** Positions 16 to 31 of `BASE64_VARIATION2` are ASCII and `RANK2` maps them back. */
  lemma Rank2Row1()
    ensures forall k :: 16 <= k < 32 ==> VARIATION2[k] as int < 128 && RANK2[VARIATION2[k] as int] == k
  {
    forall k | 16 <= k < 32 ensures VARIATION2[k] as int < 128 && RANK2[VARIATION2[k] as int] == k {
      assert k == 16 || k == 17 || k == 18 || k == 19 || k == 20 || k == 21 || k == 22 || k == 23
        || k == 24 || k == 25 || k == 26 || k == 27 || k == 28 || k == 29 || k == 30 || k == 31;
    }
  }

  /** Positions 32 to 47 of `BASE64_VARIATION2` are ASCII and `RANK2` maps them back. */
  lemma Rank2Row2()
    ensures forall k :: 32 <= k < 48 ==> VARIATION2[k] as int < 128 && RANK2[VARIATION2[k] as int] == k
  {
    forall k | 32 <= k < 48 ensures VARIATION2[k] as int < 128 && RANK2[VARIATION2[k] as int] == k {
      assert k == 32 || k == 33 || k == 34 || k == 35 || k == 36 || k == 37 || k == 38 || k == 39
        || k == 40 || k == 41 || k == 42 || k == 43 || k == 44 || k == 45 || k == 46 || k == 47;
    }
  }

  /** Positions 48 to 63 of `BASE64_VARIATION2` are ASCII and `RANK2` maps them back. */
  lemma Rank2Row3()
    ensures forall k :: 48 <= k < 64 ==> VARIATION2[k] as int < 128 && RANK2[VARIATION2[k] as int] == k
  {
    forall k | 48 <= k < 64 ensures VARIATION2[k] as int < 128 && RANK2[VARIATION2[k] as int] == k {
      assert k == 48 || k == 49 || k == 50 || k == 51 || k == 52 || k == 53 || k == 54 || k == 55
        || k == 56 || k == 57 || k == 58 || k == 59 || k == 60 || k == 61 || k == 62 || k == 63;
    }
  }

  /** `BASE64_VARIATION2` has 64 distinct characters and no `=`. */
  lemma Variation2Valid()
    ensures ValidAlphabet(VARIATION2)
  {
    Rank2Row0();
    Rank2Row1();
    Rank2Row2();
    Rank2Row3();
    RankCertificate(VARIATION2, RANK2);
  }

  /** Every character of `BASE64_VARIATION1` is ASCII, so its UTF-8 encoding is one byte per character. */
  lemma Variation1Ascii()
    ensures forall c :: c in VARIATION1 ==> c as int < 128
  {
    Rank1Row0();
    Rank1Row1();
    Rank1Row2();
    Rank1Row3();
    forall c | c in VARIATION1 ensures c as int < 128 {
      var k :| 0 <= k < 64 && VARIATION1[k] == c;
    }
  }
}
