/**
 * `ABogusGenerator.sign`: the a_bogus token for a query, a body and a user
 * agent. Three digests and two timestamps fill a 29-byte record closed by an
 * XOR checksum; the record is reordered by `RIGHT_INDEX`, enciphered with
 * ARC4, prefixed with the masked timestamp `_put_ts3` and written in Base64
 * over the private alphabet `BASE64_VARIATION2`, 44 characters in all.
 *
 * SM3 and the ARC4 keystream are library code outside the model; they are
 * parameters (`Primitives`). The clock reads are integer parameters.
 */
module ABogus {
  import opened Bytes
  import opened Timestamp
  import opened Checksum
  import opened Permutation
  import Base64
  import CustomBase64

  /** An SM3 digest: 32 bytes. */
  type Digest = d: seq<Byte> | |d| == 32 witness seq(32, _ => 0)

  /**
   * The two library primitives: SM3 (`gmssl.sm3`) and the ARC4 keystream
   * byte at a position for a key. ARC4 enciphers by XOR with that keystream.
   */
  datatype Primitives = Primitives(sm3: seq<Byte> -> Digest, keystream: (seq<Byte>, nat) -> Byte)

  /** `RC4_KEY1`, the key for the user agent. */
  const RC4_KEY1: seq<Byte> := [0, 1, 4]

  /** `RC4_KEY2`, the key for the reordered record. */
  const RC4_KEY2: seq<Byte> := [131]

  /** `EMPTY_BODY_SM3`, the precomputed digest used for an empty body. */
  const EMPTY_BODY_SM3: Digest :=
    [83, 69, 109, 82, 24, 153, 247, 200, 198, 128, 168, 162, 244, 70, 5, 146] +
    [100, 77, 138, 136, 44, 216, 207, 115, 118, 120, 152, 238, 238, 224, 239, 43]

  /** The UTF-8 bytes of the suffix `"bds"`. */
  const BDS: seq<Byte> := [98, 100, 115]

  /** `ARC4.new(key).encrypt(data)`: each byte XORed with the keystream byte at its position. */
  function Arc4(p: Primitives, key: seq<Byte>, data: seq<Byte>): (r: seq<Byte>)
    ensures |r| == |data|
  {
    seq(|data|, i requires 0 <= i < |data| => data[i] ^ p.keystream(key, i))
  }

  /** ARC4 is its own inverse under the same key. */
  lemma Arc4Involutive(p: Primitives, key: seq<Byte>, data: seq<Byte>)
    ensures Arc4(p, key, Arc4(p, key, data)) == data
  {
  }

  /** `s.encode('utf-8')` for a string of ASCII characters: one byte per character. */
  function AsciiBytes(s: string): (b: seq<Byte>)
    requires forall i :: 0 <= i < |s| ==> s[i] as int < 128
    ensures |b| == |s|
  {
    seq(|s|, i requires 0 <= i < |s| => s[i] as int as Byte)
  }

  /** The body digest: the constant for an empty body, otherwise SM3 applied twice to `body + "bds"`. */
  function BodyDigest(p: Primitives, body: seq<Byte>): (d: seq<Byte>)
    ensures |d| == 32
  {
    if |body| == 0 then EMPTY_BODY_SM3 else p.sm3(p.sm3(body + BDS))
  }

  /** The query digest: SM3 applied twice to `query + "bds"`. */
  function QueryDigest(p: Primitives, query: seq<Byte>): (d: seq<Byte>)
    ensures |d| == 32
  {
    p.sm3(p.sm3(query + BDS))
  }

  /** The user agent enciphered with `RC4_KEY1` and written over `BASE64_VARIATION1`. */
  function UaText(p: Primitives, userAgent: seq<Byte>): (s: string)
    ensures forall i :: 0 <= i < |s| ==> s[i] as int < 128
  {
    var s := CustomBase64.Encode(CustomBase64.VARIATION1, Arc4(p, RC4_KEY1, userAgent));
    CustomBase64.Variation1Valid();
    CustomBase64.Variation1Ascii();
    CustomBase64.EncodeShape(CustomBase64.VARIATION1, Arc4(p, RC4_KEY1, userAgent));
    s
  }

  /** The user-agent digest: SM3 of the UTF-8 bytes of `UaText`. */
  function UaDigest(p: Primitives, userAgent: seq<Byte>): (d: seq<Byte>)
    ensures |d| == 32
  {
    p.sm3(AsciiBytes(UaText(p, userAgent)))
  }

  /**
   * The first 28 bytes of `to_sign`: 65, `_put_int64(ts2)`, five zero bytes,
   * 1, five zero bytes, `RC4_KEY1[2]`, bytes 21..22 of the query digest,
   * bytes 21..22 of the body digest, bytes 23..24 of the user-agent digest,
   * `_put_int64(ts1)` and 3.
   */
  function Fields(q: Digest, b: Digest, u: Digest, ts1: Millis, ts2: Millis): (f: seq<Byte>)
    ensures |f| == 28
  {
    [65] + PutInt64(ts2) + [0, 0, 0, 0, 0] + [1] + [0, 0, 0, 0, 0] + [RC4_KEY1[2]]
      + q[21..23] + b[21..23] + u[23..25] + PutInt64(ts1) + [3]
  }

  /** The 29-byte `to_sign` record: the fields followed by their XOR checksum. */
  function Record(p: Primitives, query: seq<Byte>, body: seq<Byte>, userAgent: seq<Byte>, ts1: Millis, ts2: Millis): (r: seq<Byte>)
    ensures |r| == RECORD_LENGTH
  {
    var f := Fields(QueryDigest(p, query), BodyDigest(p, body), UaDigest(p, userAgent), ts1, ts2);
    f + [XorFold(f)]
  }

  /** The reordered record enciphered with `RC4_KEY2`. */
  function Cipher(p: Primitives, record: seq<Byte>): (c: seq<Byte>)
    requires |record| == RECORD_LENGTH
    ensures |c| == RECORD_LENGTH
  {
    Arc4(p, RC4_KEY2, Permute(record))
  }

  /** The 33 bytes `final`: `_put_ts3(ts3)` ahead of the cipher text. */
  function Final(p: Primitives, query: seq<Byte>, body: seq<Byte>, userAgent: seq<Byte>, ts1: Millis, ts2: Millis, ts3: Millis): (f: seq<Byte>)
    ensures |f| == 33
  {
    PutTs3(ts3) + Cipher(p, Record(p, query, body, userAgent, ts1, ts2))
  }

  /** The a_bogus token: `final` over `BASE64_VARIATION2`. */
  function Token(p: Primitives, query: seq<Byte>, body: seq<Byte>, userAgent: seq<Byte>, ts1: Millis, ts2: Millis, ts3: Millis): (t: string)
    ensures |t| == 44
  {
    CustomBase64.Encode(CustomBase64.VARIATION2, Final(p, query, body, userAgent, ts1, ts2, ts3))
  }

  /** Python's slice assignment `a[start:start + len(src)] = src`. */
  method WriteSlice(a: array<Byte>, start: nat, src: seq<Byte>)
    requires start + |src| <= a.Length
    modifies a
    ensures forall k :: 0 <= k < a.Length ==>
      a[k] == (if start <= k < start + |src| then src[k - start] else old(a[k]))
  {
    for i := 0 to |src|
      invariant forall k :: 0 <= k < a.Length ==>
        a[k] == (if start <= k < start + i then src[k - start] else old(a[k]))
    {
      a[start + i] := src[i];
    }
  }

  /** The writes `to_sign[0] = 65`, `to_sign[1:5] = _put_int64(ts2)`, `to_sign[10] = 1`, `to_sign[16] = RC4_KEY1[2]` into a zeroed record. */
  method WriteHeader(toSign: array<Byte>, q: Digest, b: Digest, u: Digest, ts1: Millis, ts2: Millis)
    requires toSign.Length == RECORD_LENGTH && forall k :: 0 <= k < 17 ==> toSign[k] == 0
    modifies toSign
    ensures forall k :: 0 <= k < RECORD_LENGTH ==>
      toSign[k] == if k < 17 then Fields(q, b, u, ts1, ts2)[k] else old(toSign[k])
  {
    toSign[0] := 65;
    WriteSlice(toSign, 1, PutInt64(ts2));
    toSign[10] := 1;
    toSign[16] := RC4_KEY1[2];
    forall k | 0 <= k < 17 ensures toSign[k] == Fields(q, b, u, ts1, ts2)[k] {
      FieldsAt(q, b, u, ts1, ts2, k);
    }
  }

  /** The writes of the digest fragments, `_put_int64(ts1)` and `to_sign[27] = 3`. */
  method WriteTail(toSign: array<Byte>, q: Digest, b: Digest, u: Digest, ts1: Millis, ts2: Millis)
    requires toSign.Length == RECORD_LENGTH
    modifies toSign
    ensures forall k :: 0 <= k < RECORD_LENGTH ==>
      toSign[k] == if 17 <= k < 28 then Fields(q, b, u, ts1, ts2)[k] else old(toSign[k])
  {
    WriteSlice(toSign, 17, q[21..23]);
    WriteSlice(toSign, 19, b[21..23]);
    WriteSlice(toSign, 21, u[23..25]);
    WriteSlice(toSign, 23, PutInt64(ts1));
    toSign[27] := 3;
    forall k | 17 <= k < 28 ensures toSign[k] == Fields(q, b, u, ts1, ts2)[k] {
      FieldsAt(q, b, u, ts1, ts2, k);
    }
  }

  /** Step 6 of `sign`: the zeroed `bytearray(29)` filled slice by slice, then closed by `_xor_sum`. */
  method BuildRecord(q: Digest, b: Digest, u: Digest, ts1: Millis, ts2: Millis) returns (toSign: array<Byte>)
    ensures fresh(toSign)
    ensures toSign[..] == Fields(q, b, u, ts1, ts2) + [XorFold(Fields(q, b, u, ts1, ts2))]
  {
    toSign := new Byte[RECORD_LENGTH](_ => 0);
    WriteHeader(toSign, q, b, u, ts1, ts2);
    WriteTail(toSign, q, b, u, ts1, ts2);
    var fields := Fields(q, b, u, ts1, ts2);
    assert toSign[..28] == fields;
    var sum := XorSum(toSign[..28]);
    toSign[28] := sum;
    assert toSign[..] == fields + [sum];
  }

  /** Step 7 of `sign`: `data[i] = to_sign[RIGHT_INDEX[i]]` for every `i`. */
  method Reorder(toSign: array<Byte>) returns (data: array<Byte>)
    requires toSign.Length == RECORD_LENGTH
    ensures fresh(data)
    ensures data[..] == Permute(toSign[..])
  {
    data := new Byte[RECORD_LENGTH];
    RightIndexIsPermutation();
    for i := 0 to RECORD_LENGTH
      invariant forall j :: 0 <= j < i ==> data[j] == toSign[RIGHT_INDEX[j]]
    {
      data[i] := toSign[RIGHT_INDEX[i]];
    }
  }

  /** Step 10 of `sign`: `final[0:4] = _put_ts3(ts3)` and `final[4:] = data`. */
  method Prefix(ts3: Millis, cipher: seq<Byte>) returns (final: array<Byte>)
    ensures fresh(final)
    ensures final[..] == PutTs3(ts3) + cipher
  {
    final := new Byte[|cipher| + 4];
    WriteSlice(final, 0, PutTs3(ts3));
    WriteSlice(final, 4, cipher);
    assert final[..] == PutTs3(ts3) + cipher;
  }

  /** `ABogusGenerator().sign(query, body, user_agent)` with the three clock reads in milliseconds. */
  method Sign(p: Primitives, query: seq<Byte>, body: seq<Byte>, userAgent: seq<Byte>, clock1: int, clock2: int, clock3: int)
    returns (token: string)
    ensures token == Token(p, query, body, userAgent, ToMillis(clock1), ToMillis(clock2 + 103), ToMillis(clock3 + 103))
  {
    var ts1 := ToMillis(clock1);
    var bodySm3: Digest;
    if |body| == 0 {
      bodySm3 := EMPTY_BODY_SM3;
    } else {
      bodySm3 := p.sm3(p.sm3(body + BDS));
    }
    var querySm3 := p.sm3(p.sm3(query + BDS));
    var uaBase64 := UaText(p, userAgent);
    var uaSm3 := p.sm3(AsciiBytes(uaBase64));
    var ts2 := ToMillis(clock2 + 103);
    var toSign := BuildRecord(querySm3, bodySm3, uaSm3, ts1, ts2);
    var data := Reorder(toSign);
    var ts3 := ToMillis(clock3 + 103);
    var cipher := Arc4(p, RC4_KEY2, data[..]);
    var final := Prefix(ts3, cipher);
    token := CustomBase64.Encode(CustomBase64.VARIATION2, final[..]);
  }

  /** `generate_a_bogus(query, body, user_agent)`. */
  method GenerateABogus(p: Primitives, query: seq<Byte>, body: seq<Byte>, userAgent: seq<Byte>, clock1: int, clock2: int, clock3: int)
    returns (token: string)
    ensures token == Token(p, query, body, userAgent, ToMillis(clock1), ToMillis(clock2 + 103), ToMillis(clock3 + 103))
  {
    token := Sign(p, query, body, userAgent, clock1, clock2, clock3);
  }

  /** Byte `k` of the fields, position by position: only the listed positions hold anything but 0. */
  lemma FieldsAt(q: Digest, b: Digest, u: Digest, ts1: Millis, ts2: Millis, k: int)
    requires 0 <= k < 28
    ensures Fields(q, b, u, ts1, ts2)[k] ==
      if k == 0 then 65
      else if k < 5 then PutInt64(ts2)[k - 1]
      else if k == 10 then 1
      else if k == 16 then 4
      else if 17 <= k < 19 then q[k + 4]
      else if 19 <= k < 21 then b[k + 2]
      else if 21 <= k < 23 then u[k + 2]
      else if 23 <= k < 27 then PutInt64(ts1)[k - 23]
      else if k == 27 then 3
      else 0
  {
  }

  /** The fields slice by slice; the bytes 5..9 and 11..15 keep the zeros of `bytearray(29)`. */
  lemma FieldsLayout(q: Digest, b: Digest, u: Digest, ts1: Millis, ts2: Millis)
    ensures var f := Fields(q, b, u, ts1, ts2);
      f[0] == 65 && f[1..5] == PutInt64(ts2) && f[5..10] == [0, 0, 0, 0, 0] && f[10] == 1 &&
      f[11..16] == [0, 0, 0, 0, 0] && f[16] == RC4_KEY1[2] == 4 &&
      f[17..19] == q[21..23] && f[19..21] == b[21..23] && f[21..23] == u[23..25] &&
      f[23..27] == PutInt64(ts1) && f[27] == 3
  {
  }

  /** The record is the fields of the three digests and the two timestamps, closed by their XOR. */
  lemma RecordLayout(p: Primitives, query: seq<Byte>, body: seq<Byte>, userAgent: seq<Byte>, ts1: Millis, ts2: Millis)
    ensures var r := Record(p, query, body, userAgent, ts1, ts2);
      r[..28] == Fields(QueryDigest(p, query), BodyDigest(p, body), UaDigest(p, userAgent), ts1, ts2) &&
      r[28] == XorFold(r[..28])
  {
    var f := Fields(QueryDigest(p, query), BodyDigest(p, body), UaDigest(p, userAgent), ts1, ts2);
    assert (f + [XorFold(f)])[..28] == f;
  }

  /** Read back big-endian, bytes 1..4 and 23..26 are `ts2` and `ts1` modulo 2^32. */
  lemma RecordTimestamps(p: Primitives, query: seq<Byte>, body: seq<Byte>, userAgent: seq<Byte>, ts1: Millis, ts2: Millis)
    ensures BigEndian32(Record(p, query, body, userAgent, ts1, ts2)[1..5]) == ts2 & 0xFFFF_FFFF
    ensures BigEndian32(Record(p, query, body, userAgent, ts1, ts2)[23..27]) == ts1 & 0xFFFF_FFFF
  {
    RecordLayout(p, query, body, userAgent, ts1, ts2);
    FieldsLayout(QueryDigest(p, query), BodyDigest(p, body), UaDigest(p, userAgent), ts1, ts2);
    PutInt64Value(ts1);
    PutInt64Value(ts2);
  }

  /** The checksum byte closes the record: the XOR of all 29 bytes is 0. */
  lemma RecordChecksum(p: Primitives, query: seq<Byte>, body: seq<Byte>, userAgent: seq<Byte>, ts1: Millis, ts2: Millis)
    ensures XorFold(Record(p, query, body, userAgent, ts1, ts2)) == 0
  {
    var f := Fields(QueryDigest(p, query), BodyDigest(p, body), UaDigest(p, userAgent), ts1, ts2);
    ChecksumCloses(f);
  }

  /** The reordering keeps the bytes of the record, so their XOR is still 0. */
  lemma ReorderedChecksum(p: Primitives, query: seq<Byte>, body: seq<Byte>, userAgent: seq<Byte>, ts1: Millis, ts2: Millis)
    ensures var r := Record(p, query, body, userAgent, ts1, ts2);
      multiset(Permute(r)) == multiset(r) && XorFold(Permute(r)) == 0
  {
    var r := Record(p, query, body, userAgent, ts1, ts2);
    PermuteMultiset(r);
    RecordChecksum(p, query, body, userAgent, ts1, ts2);
    XorFoldMultiset(Permute(r), r);
  }

  /** `ts1`, the constant 3 and the checksum keep their places under the reordering. */
  lemma ReorderedTail(r: seq<Byte>)
    requires |r| == RECORD_LENGTH
    ensures Permute(r)[23..] == r[23..]
  {
    forall i | 23 <= i < RECORD_LENGTH ensures Permute(r)[i] == r[i] {
      RightIndexFixedPoints(i);
    }
  }

  /** Whoever holds the keystream of `RC4_KEY2` recovers the record from the cipher text. */
  lemma CipherRecoverable(p: Primitives, record: seq<Byte>)
    requires |record| == RECORD_LENGTH
    ensures Unpermute(Arc4(p, RC4_KEY2, Cipher(p, record))) == record
  {
    Arc4Involutive(p, RC4_KEY2, Permute(record));
    UnpermutePermute(record);
  }

  /** `final` is `_put_ts3(ts3)` ahead of the cipher text, and the prefix gives back `ts3` modulo 65536. */
  lemma FinalLayout(p: Primitives, query: seq<Byte>, body: seq<Byte>, userAgent: seq<Byte>, ts1: Millis, ts2: Millis, ts3: Millis)
    ensures var f := Final(p, query, body, userAgent, ts1, ts2, ts3);
      f[..4] == PutTs3(ts3) && f[4..] == Cipher(p, Record(p, query, body, userAgent, ts1, ts2)) &&
      ReadTs3(f[..4]) == ts3 & 0xFFFF
  {
    var f := Final(p, query, body, userAgent, ts1, ts2, ts3);
    assert f[..4] == PutTs3(ts3);
    PutTs3RoundTrip(ts3);
  }

  /** The token has no `=` (33 bytes are eleven whole groups) and every character is from `BASE64_VARIATION2`. */
  lemma TokenAlphabet(p: Primitives, query: seq<Byte>, body: seq<Byte>, userAgent: seq<Byte>, ts1: Millis, ts2: Millis, ts3: Millis)
    ensures var t := Token(p, query, body, userAgent, ts1, ts2, ts3);
      Base64.PAD !in t && forall i :: 0 <= i < |t| ==> t[i] in CustomBase64.VARIATION2
  {
    CustomBase64.Variation2Valid();
    CustomBase64.EncodeInAlphabet(CustomBase64.VARIATION2, Final(p, query, body, userAgent, ts1, ts2, ts3));
  }

  /** The token decodes over `BASE64_VARIATION2` to the 33 bytes of `final`. */
  lemma TokenDecodes(p: Primitives, query: seq<Byte>, body: seq<Byte>, userAgent: seq<Byte>, ts1: Millis, ts2: Millis, ts3: Millis)
    ensures CustomBase64.Decode(CustomBase64.VARIATION2, Token(p, query, body, userAgent, ts1, ts2, ts3))
      == Some(Values(Final(p, query, body, userAgent, ts1, ts2, ts3)))
  {
    CustomBase64.Variation2Valid();
    CustomBase64.DecodeEncode(CustomBase64.VARIATION2, Final(p, query, body, userAgent, ts1, ts2, ts3));
  }

  /** Only `ts1` and `ts2` modulo 2^32 and `ts3` modulo 65536 reach the token. */
  lemma TokenTimestamps(p: Primitives, query: seq<Byte>, body: seq<Byte>, userAgent: seq<Byte>, ts1: Millis, ts2: Millis, ts3: Millis)
    ensures Token(p, query, body, userAgent, ts1, ts2, ts3)
      == Token(p, query, body, userAgent, ts1 & 0xFFFF_FFFF, ts2 & 0xFFFF_FFFF, ts3 & 0xFFFF)
  {
    PutInt64Low32(ts1);
    PutInt64Low32(ts2);
    PutTs3Low16(ts3);
  }

  /**
   * The converse of `TokenTimestamps`: for the same query, body and user
   * agent, equal tokens mean equal `ts1` and `ts2` modulo 2^32 and equal
   * `ts3` modulo 65536, so readings that differ there give different tokens.
   */
  lemma TokenDeterminesTimestamps(p: Primitives, query: seq<Byte>, body: seq<Byte>, userAgent: seq<Byte>,
                                  ts1: Millis, ts2: Millis, ts3: Millis, ts1': Millis, ts2': Millis, ts3': Millis)
    requires Token(p, query, body, userAgent, ts1, ts2, ts3) == Token(p, query, body, userAgent, ts1', ts2', ts3')
    ensures ts1 & 0xFFFF_FFFF == ts1' & 0xFFFF_FFFF
    ensures ts2 & 0xFFFF_FFFF == ts2' & 0xFFFF_FFFF
    ensures ts3 & 0xFFFF == ts3' & 0xFFFF
  {
    TokenDeterminesFinal(p, query, body, userAgent, ts1, ts2, ts3, ts1', ts2', ts3');
    FinalDeterminesTimestamps(p, query, body, userAgent, ts1, ts2, ts3, ts1', ts2', ts3');
  }

  /** Two runs with the same inputs give the same token exactly when the timestamps agree in the bits that reach it. */
  lemma TokenTimestampsIff(p: Primitives, query: seq<Byte>, body: seq<Byte>, userAgent: seq<Byte>,
                           ts1: Millis, ts2: Millis, ts3: Millis, ts1': Millis, ts2': Millis, ts3': Millis)
    ensures Token(p, query, body, userAgent, ts1, ts2, ts3) == Token(p, query, body, userAgent, ts1', ts2', ts3')
      <==> ts1 & 0xFFFF_FFFF == ts1' & 0xFFFF_FFFF && ts2 & 0xFFFF_FFFF == ts2' & 0xFFFF_FFFF && ts3 & 0xFFFF == ts3' & 0xFFFF
  {
    if Token(p, query, body, userAgent, ts1, ts2, ts3) == Token(p, query, body, userAgent, ts1', ts2', ts3') {
      TokenDeterminesTimestamps(p, query, body, userAgent, ts1, ts2, ts3, ts1', ts2', ts3');
    }
    TokenTimestamps(p, query, body, userAgent, ts1, ts2, ts3);
    TokenTimestamps(p, query, body, userAgent, ts1', ts2', ts3');
  }

  /** Equal tokens decode to equal `final` bytes. */
  lemma TokenDeterminesFinal(p: Primitives, query: seq<Byte>, body: seq<Byte>, userAgent: seq<Byte>,
                             ts1: Millis, ts2: Millis, ts3: Millis, ts1': Millis, ts2': Millis, ts3': Millis)
    requires Token(p, query, body, userAgent, ts1, ts2, ts3) == Token(p, query, body, userAgent, ts1', ts2', ts3')
    ensures Final(p, query, body, userAgent, ts1, ts2, ts3) == Final(p, query, body, userAgent, ts1', ts2', ts3')
  {
    TokenDecodes(p, query, body, userAgent, ts1, ts2, ts3);
    TokenDecodes(p, query, body, userAgent, ts1', ts2', ts3');
    ValuesInjective(Final(p, query, body, userAgent, ts1, ts2, ts3), Final(p, query, body, userAgent, ts1', ts2', ts3'));
  }

  /** Equal `final` bytes carry equal timestamps in the bits the encoders keep. */
  lemma FinalDeterminesTimestamps(p: Primitives, query: seq<Byte>, body: seq<Byte>, userAgent: seq<Byte>,
                                  ts1: Millis, ts2: Millis, ts3: Millis, ts1': Millis, ts2': Millis, ts3': Millis)
    requires Final(p, query, body, userAgent, ts1, ts2, ts3) == Final(p, query, body, userAgent, ts1', ts2', ts3')
    ensures ts1 & 0xFFFF_FFFF == ts1' & 0xFFFF_FFFF
    ensures ts2 & 0xFFFF_FFFF == ts2' & 0xFFFF_FFFF
    ensures ts3 & 0xFFFF == ts3' & 0xFFFF
  {
    var r, r' := Record(p, query, body, userAgent, ts1, ts2), Record(p, query, body, userAgent, ts1', ts2');
    FinalLayout(p, query, body, userAgent, ts1, ts2, ts3);
    FinalLayout(p, query, body, userAgent, ts1', ts2', ts3');
    CipherRecoverable(p, r);
    CipherRecoverable(p, r');
    RecordTimestamps(p, query, body, userAgent, ts1, ts2);
    RecordTimestamps(p, query, body, userAgent, ts1', ts2');
  }

  /** An empty body takes the constant digest; when that constant is the double SM3 of `"bds"`, every body takes the same route. */
  lemma EmptyBodyDigest(p: Primitives, body: seq<Byte>)
    ensures |body| == 0 ==> BodyDigest(p, body) == EMPTY_BODY_SM3
    ensures p.sm3(p.sm3(BDS)) == EMPTY_BODY_SM3 ==> BodyDigest(p, body) == p.sm3(p.sm3(body + BDS))
  {
    if |body| == 0 {
      assert body + BDS == BDS;
    }
  }
}
