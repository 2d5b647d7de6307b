# a_bogus signer and device fingerprint, modelled in Dafny

This project models the core of a Python reimplementation of two anti-crawler
tokens, verified in Dafny:

- **`ABogusGenerator.sign`** (`a_bogus.py`) builds the `a_bogus` query
  parameter in these steps:
  1. It takes three SM3 digests: one of the query, one of the body, and one
     of the user agent after ARC4 and Base64.
  2. It reads two of its three millisecond timestamps.
  3. It writes all of these into a 29-byte record. The record ends with an
     XOR checksum.
  4. It reorders the record through the fixed table `RIGHT_INDEX`.
  5. It enciphers the result with ARC4 under the key `[131]`.
  6. It prefixes four bytes from `_put_ts3`. That function spreads the low
     16 bits of a third timestamp over the masks `0xAA` and `0x55` and adds
     marker bits.
  7. It writes the 33 bytes in Base64 over the private alphabet
     `BASE64_VARIATION2`. The result is a 44-character token.
- **`DeviceFingerprint`** (`device_fingerprint.py`) has these parts:
  - the base-36 encoder `_base36_encode`;
  - `generate_sv_web_id`: `verify_`, then the base-36 millisecond clock less 100000 ms,
    then `_`, then 36 random characters. The characters at positions 8, 13,
    18 and 23 are `_`, and position 19 is drawn from `"89abcdef"`. The
    docstring's example id (device_fingerprint.py:70) has `A` at suffix
    position 19, so the code cannot produce it;
  - the random-string generators `generate_ms_token` (108 characters) and
    `generate_token` (32 lower-case hexadecimal characters).

The modules follow the program's structure:

| module | file | what it holds |
|---|---|---|
| `Bytes` | `bytes.dfy` | bytes as `bv8`; `Option` |
| `Timestamp` | `timestamp.dfy` | `_put_int64` and `_put_ts3` over the low 64 bits of a clock reading |
| `Checksum` | `checksum.dfy` | `_xor_sum` as a loop, specified by a fold |
| `Permutation` | `permutation.dfy` | `RIGHT_INDEX`, its inverse, the reordering and its multiset property |
| `Base64` | `base64.dfy` | standard Base64 (`base64.b64encode`) with a decoder as its partner |
| `CustomBase64` | `custom_base64.dfy` | the two private alphabets and `str.translate` onto them |
| `ABogus` | `a_bogus.dfy` | the record layout, `sign` as a method over arrays, `generate_a_bogus` |
| `DeviceFingerprint` | `device_fingerprint.dfy` | base 36, `s_v_web_id`, `msToken`, `passport_csrf_token` |

Some parts of the source are outside the model and enter as parameters:

- SM3 and the ARC4 keystream are library code. They are the two functions
  of `ABogus.Primitives`. ARC4 enciphers by XOR with its keystream, and that
  is modelled.
- Each read of `time.time() * 1000` is an integer parameter. `sign` reads
  the clock three times, giving `clock1`, `clock2` and `clock3`.
- Each `random.choice` is an index into the character set: the `picks`
  parameter.
- Strings that the source encodes as UTF-8 are given as byte sequences.

## Model

| member | source | states |
|---|---|---|
| Timestamp.PutInt64Value | a_bogus.py:72-79 | read back big-endian, `_put_int64(v)` is `v mod 2^32`; higher bits are dropped |
| Timestamp.PutInt64 | a_bogus.py:72-79 | `_put_int64` gives four bytes |
| Timestamp.PutInt64OfBigEndian | a_bogus.py:72-79 | every four bytes are `_put_int64` of their own big-endian value, so the encoding is onto and 32-bit values have distinct encodings |
| Timestamp.PutInt64Low32 | a_bogus.py:72-79 | only the low 32 bits of the value reach the bytes |
| Timestamp.PutTs3Markers | a_bogus.py:81-88 | the four bytes carry their marker bits 1, 2, 64 and 2 |
| Timestamp.PutTs3 | a_bogus.py:81-88 | `_put_ts3` gives four bytes |
| Timestamp.PutTs3Recover | a_bogus.py:81-88 | the `0xAA`/`0x55` halves recombine to `ts & 255` and `(ts >> 8) & 255` |
| Timestamp.PutTs3RoundTrip | a_bogus.py:81-88 | `ReadTs3` recovers `ts mod 65536` from the four bytes |
| Timestamp.PutTs3Low16 | a_bogus.py:81-88 | the output depends only on `ts mod 65536` |
| Timestamp.PutTs3Injective | a_bogus.py:81-88 | two timestamps encode alike if and only if they agree modulo 65536 |
| Checksum.XorSum | a_bogus.py:90-95 | the loop returns the XOR of all elements; a non-empty argument is required because the source reads `arr[0]` |
| Checksum.XorFoldAppend | a_bogus.py:90-95 | the XOR of a concatenation is the XOR of the two parts |
| Checksum.ChecksumCloses | a_bogus.py:140 | appending the checksum makes the XOR of the whole record 0 |
| Checksum.XorFoldMultiset | a_bogus.py:90-95 | the checksum is the same for any two sequences with the same multiset of bytes |
| Permutation.RightIndexIsPermutation | a_bogus.py:35-38 | `RIGHT_INDEX` is a bijection of 0..28, and the inverse table undoes it on both sides |
| Permutation.RightIndexInjective | a_bogus.py:35-38 | two output positions read the same byte if and only if they are the same position |
| Permutation.RightIndexFixedPoints | a_bogus.py:35-38 | positions 23..28 (`ts1`, the 3 and the checksum) stay in place |
| Permutation.Permute | a_bogus.py:143-145 | the reordered record has 29 bytes |
| Permutation.UnpermutePermute | a_bogus.py:143-145 | reordering loses nothing: the inverse reordering recovers the record |
| Permutation.PermuteUnpermute | a_bogus.py:143-145 | every 29-byte sequence is the reordering of exactly one record |
| Permutation.PermuteMultiset | a_bogus.py:143-145 | the reordered record is a permutation of the record |
| Permutation.ReorderMultiset | a_bogus.py:143-145 | any sequence read through a bijection of its positions has the same multiset of elements |
| Base64.StdIndexFindsStandard | a_bogus.py:51 | the standard alphabet's index function finds exactly the characters of the alphabet, at their positions |
| Base64.EncodeShape | a_bogus.py:56 | `=` appears exactly in the last `Padding` positions; every other character is in the standard alphabet |
| Base64.EncodeNoPad | a_bogus.py:56 | input whose length is a multiple of 3 encodes without `=` |
| Base64.Encode | a_bogus.py:56 | the encoding of `n` bytes has `4 * ceil(n / 3)` characters |
| Base64.DecodeEncode | a_bogus.py:56 | decoding the standard encoding gives back the bytes |
| CustomBase64.Encode | a_bogus.py:46-59 | the encoding over a 64-letter alphabet has `4 * ceil(n / 3)` characters |
| CustomBase64.Translate | a_bogus.py:52-57 | `translate` keeps the length of the text |
| CustomBase64.TranslateChar | a_bogus.py:52 | the `maketrans` table sends the letter at position k of the standard alphabet to `alphabet[k]` and leaves every other character unchanged |
| CustomBase64.TranslateMapsStandard | a_bogus.py:51-57 | `translate` sends the k-th standard letter to the k-th private letter and leaves `=` alone |
| CustomBase64.EncodeShape | a_bogus.py:54-57 | over an alphabet without `=`, the output has `=` exactly in the padding positions and private letters everywhere else |
| CustomBase64.EncodeInAlphabet | a_bogus.py:54-57 | with no padding, every character of the output is a letter of the alphabet |
| CustomBase64.DecodeEncode | a_bogus.py:46-59 | over a valid alphabet (64 distinct letters, no `=`), the private encoding is reversible |
| CustomBase64.Variation1Valid | a_bogus.py:18 | `BASE64_VARIATION1` has 64 distinct letters and no `=` |
| CustomBase64.Variation2Valid | a_bogus.py:21 | `BASE64_VARIATION2` has 64 distinct letters and no `=` |
| CustomBase64.Variation1Ascii | a_bogus.py:18 | every letter of `BASE64_VARIATION1` is ASCII, so its UTF-8 encoding is one byte per letter |
| ABogus.Arc4Involutive | a_bogus.py:67-70 | ARC4 under a key undoes itself |
| ABogus.Arc4 | a_bogus.py:67-70 | ARC4 output is as long as its input |
| ABogus.UaText | a_bogus.py:122-123 | the user-agent text is ASCII |
| ABogus.EmptyBodyDigest | a_bogus.py:113-116 | an empty body takes `EMPTY_BODY_SM3`; if that constant equals the double SM3 of `"bds"`, every body gets its digest the same way |
| ABogus.BodyDigest | a_bogus.py:113-116 | the body digest has 32 bytes, so the slice `[21:23]` at line 136 is in range |
| ABogus.QueryDigest | a_bogus.py:119 | the query digest has 32 bytes, so the slice `[21:23]` at line 135 is in range |
| ABogus.UaDigest | a_bogus.py:122-124 | the user-agent digest has 32 bytes, so the slice `[23:25]` at line 137 is in range |
| ABogus.AsciiBytes | a_bogus.py:124 | the encoding of an ASCII text has one byte per character |
| ABogus.FieldsAt | a_bogus.py:130-139 | byte `k` of the 28-byte field block, position by position: 65, `ts2`, zeros, 1, zeros, `RC4_KEY1[2]`, the digest slices, `ts1`, 3 |
| ABogus.FieldsLayout | a_bogus.py:130-139 | the slices `[1..5]`, `[17..19]`, `[19..21]`, `[21..23]`, `[23..27]` hold `ts2`, the query, body and user-agent digest bytes and `ts1`; bytes 5..9 and 11..15 are 0 |
| ABogus.Fields | a_bogus.py:130-139 | the field block before the checksum has 28 bytes |
| ABogus.RecordLayout | a_bogus.py:130-140 | the record is the field block followed by its checksum |
| ABogus.Record | a_bogus.py:130-140 | `to_sign` has 29 bytes |
| ABogus.RecordTimestamps | a_bogus.py:132-138 | bytes 1..4 and 23..26 read back big-endian as `ts2 mod 2^32` and `ts1 mod 2^32` |
| ABogus.RecordChecksum | a_bogus.py:140 | the XOR of all 29 record bytes is 0 |
| ABogus.ReorderedChecksum | a_bogus.py:140-145 | the reordered record has the record's multiset of bytes and still XORs to 0 |
| ABogus.ReorderedTail | a_bogus.py:143-145 | reordering leaves bytes 23..28 in place |
| ABogus.CipherRecoverable | a_bogus.py:143-151 | deciphering with `RC4_KEY2` and undoing the reordering recovers the record |
| ABogus.Cipher | a_bogus.py:143-151 | the reordered, enciphered record has 29 bytes |
| ABogus.FinalLayout | a_bogus.py:154-156 | the 33 bytes are `_put_ts3(ts3)` then the cipher, and `ts3 mod 65536` reads back from the prefix |
| ABogus.Final | a_bogus.py:154-156 | `final` has `len(data) + 4` = 33 bytes |
| ABogus.Token | a_bogus.py:159 | the token has 44 characters |
| ABogus.TokenAlphabet | a_bogus.py:159 | the token has no `=`, and every character is a letter of `BASE64_VARIATION2` |
| ABogus.TokenDecodes | a_bogus.py:159 | decoding the token over `BASE64_VARIATION2` gives back the 33 final bytes |
| ABogus.TokenTimestamps | a_bogus.py:110-148 | only `ts1` and `ts2` modulo 2^32 and `ts3` modulo 65536 affect the token |
| ABogus.TokenDeterminesTimestamps | a_bogus.py:110-159 | for the same query, body and user agent, equal tokens mean equal `ts1` and `ts2` modulo 2^32 and equal `ts3` modulo 65536, so clock reads that differ there give different tokens |
| ABogus.TokenTimestampsIff | a_bogus.py:110-159 | two tokens for the same inputs are equal if and only if the timestamps agree modulo 2^32, 2^32 and 65536 |
| ABogus.TokenDeterminesFinal | a_bogus.py:159 | equal tokens decode to equal 33-byte `final` sequences |
| ABogus.FinalDeterminesTimestamps | a_bogus.py:130-156 | equal `final` bytes give equal records, so `ts1`, `ts2` (modulo 2^32) and `ts3` (modulo 65536) agree |
| Bytes.ValuesInjective | a_bogus.py:159 | distinct byte sequences have distinct lists of byte values |
| ABogus.WriteSlice | a_bogus.py:132-138 | the slice assignment `a[start:start+len(src)] = src` writes `src` at `start..` and leaves every other element as it was |
| ABogus.WriteHeader | a_bogus.py:131-134 | on a zeroed `bytearray(29)`, bytes 0..16 become the first 17 field bytes (65, `_put_int64(ts2)`, zeros, 1, zeros, 4); bytes 17..28 are unchanged |
| ABogus.WriteTail | a_bogus.py:135-139 | bytes 17..27 become the digest fragments, `_put_int64(ts1)` and 3; the other bytes are unchanged |
| ABogus.BuildRecord | a_bogus.py:130-140 | the new array holds the 28 field bytes followed by their `_xor_sum` |
| ABogus.Reorder | a_bogus.py:143-145 | the new array is `data[i] = to_sign[RIGHT_INDEX[i]]` for all 29 positions, that is `Permute` of the record |
| ABogus.Prefix | a_bogus.py:154-156 | the new array of `len(data) + 4` bytes is `_put_ts3(ts3)` followed by the cipher text |
| ABogus.Sign | a_bogus.py:97-159 | the method, over arrays, returns `Token` of the digests and of the three clock reads, with 103 added to the second and third |
| ABogus.GenerateABogus | a_bogus.py:162-181 | the wrapper returns what `sign` returns |
| DeviceFingerprint.Base36Encode | device_fingerprint.py:294-306 | the `divmod` loop returns the base-36 numeral `ToBase36(number)` |
| DeviceFingerprint.ToBase36 | device_fingerprint.py:294-306 | the numeral is never empty, and it is one digit exactly when the number is below 36 |
| DeviceFingerprint.Reversed | device_fingerprint.py:306 | `reversed` keeps the length and puts character `|s| - 1 - i` at position i |
| DeviceFingerprint.Lower | device_fingerprint.py:77 | `.lower()` keeps the length, leaves no upper-case ASCII letter, sends each upper-case letter to the same lower-case letter and leaves every other character unchanged |
| DeviceFingerprint.Base36Chars | device_fingerprint.py:299-304 | the numeral is non-empty and uses only `0-9a-z` |
| DeviceFingerprint.Base36Zero | device_fingerprint.py:296-297 | zero is `"0"` |
| DeviceFingerprint.Base36RoundTrip | device_fingerprint.py:294-306 | reading the numeral back in base 36 gives the number |
| DeviceFingerprint.Base36NoLeadingZero | device_fingerprint.py:302-306 | a positive number's numeral does not start with `0` |
| DeviceFingerprint.Base36Injective | device_fingerprint.py:294-306 | two numbers have the same numeral if and only if they are equal |
| DeviceFingerprint.LowerOfBase36 | device_fingerprint.py:77 | `.lower()` leaves a base-36 numeral unchanged |
| DeviceFingerprint.GenerateSvWebId | device_fingerprint.py:62-91 | the loop builds `"verify_" + base36(now - 100000) + "_" + suffix` from the given picks |
| DeviceFingerprint.SvWebId | device_fingerprint.py:91 | the id is `verify_`, the time part and `_` followed by the 36-character suffix, so its length is 44 plus the length of the numeral |
| DeviceFingerprint.SuffixChar | device_fingerprint.py:82-88 | character i of the suffix is `_` exactly at the separator positions, alphanumeric everywhere else, and one of `"89abcdef"` at position 19 |
| DeviceFingerprint.Suffix | device_fingerprint.py:80-89 | the joined `parts` has 36 characters |
| DeviceFingerprint.DocExampleNotProduced | device_fingerprint.py:70-86 | no picks give the docstring's example suffix, because its position 19 is `A` and the code draws that position from `"89abcdef"` |
| DeviceFingerprint.CharsEightToSixteen | device_fingerprint.py:73-86 | `chars[8:16]` is `"89abcdef"` |
| DeviceFingerprint.SuffixLayout | device_fingerprint.py:80-88 | the suffix has `_` exactly at 8, 13, 18 and 23; position 19 is in `"89abcdef"`; every other character is alphanumeric |
| DeviceFingerprint.SvWebIdFields | device_fingerprint.py:91 | the id starts with `verify_` and splits on `_` into `verify`, the clock and the five runs of the suffix |
| DeviceFingerprint.SvWebIdPieceCount | test_algorithms.py:104-107 | the id splits on `_` into 7 pieces, at least the 6 the test asks for |
| DeviceFingerprint.Split | test_algorithms.py:106 | `str.split` never returns an empty list |
| DeviceFingerprint.SplitJoin | test_algorithms.py:106 | no piece of `s.split(sep)` contains `sep`, and joining the pieces with `sep` gives back `s` |
| DeviceFingerprint.RandomString | device_fingerprint.py:107 | `length` characters (none for a negative length), all from the character set |
| DeviceFingerprint.MsToken | device_fingerprint.py:93-107 | `msToken` has `length` characters (none for a negative length) |
| DeviceFingerprint.CsrfToken | device_fingerprint.py:109-120 | the token has `length` characters (none for a negative length) |
| DeviceFingerprint.MsTokenDefault | device_fingerprint.py:93-107 | the default `msToken` has 108 characters, each alphanumeric or one of `_-=` |
| DeviceFingerprint.CsrfTokenDefault | device_fingerprint.py:109-120 | the default token has 32 characters, each in `0-9a-f` |
| DeviceFingerprint.MsTokenCharsAt | device_fingerprint.py:106 | the `msToken` character set has 65 entries, each alphanumeric or one of `_-=` |
| DeviceFingerprint.CsrfTokenCharsAt | device_fingerprint.py:119 | `string.hexdigits.lower()` has 22 entries, each in `0-9a-f` |

## Left out

- SM3 (`gmssl`) and the ARC4 keystream (`Crypto.Cipher.ARC4`) are library code. They are the uninterpreted functions of `ABogus.Primitives`, and `EMPTY_BODY_SM3` is not checked against SM3.
- `time.time()` is replaced by integer clock readings. A clock reading is kept modulo 2^64 (`Timestamp.ToMillis`). Both encoders use 32 bits at most, so the token is unaffected.
- `random.choice` is replaced by the index sequence `picks`. The model does not capture how the picks are distributed. `ValidPicks` asks for 36 picks, but the source draws nothing at the separator positions 8, 13, 18 and 23, and the suffix ignores the picks there.
- UTF-8 encoding: the query, body and user agent are byte sequences. The user-agent text is ASCII, and `ABogus.AsciiBytes` encodes it one byte per character.
- `get_ttwid` and `get_nonce` make HTTP requests; they are outside the model.
- `calculate_signature` relies on MD5; it is outside the model.
- The `generate` dictionary, `USER_AGENTS` and `__init__`'s fields are left out: they only assemble the modelled values.
- The calls `generate_token(21)`/`(48)`, the `ttwid` format and the `__main__` blocks are left out.
- The test scripts are left out; their format checks are stated as lemmas instead.
- DeviceFingerprint.Base36Encode: requires `number >= 0`. Python's `divmod` floors, so a negative argument never reaches 0 and the source's loop does not end. The clock minus 100000 is never negative.
- DeviceFingerprint.GenerateSvWebId: requires `now - 100000 >= 0` for the same reason.
- DeviceFingerprint.Lower: lower-cases ASCII letters only. That covers every base-36 numeral, but not Python's full Unicode `.lower()`.
- ABogus.AsciiBytes: states the length only, not that each byte is its character's code. Relating an integer to a bit-vector is beyond the solver's resource limit here.
- Timestamp.ToMillis: has no contract relating the clock reading to its low 64 bits, for the same reason. What reaches the token is stated in bit-vector terms by the `Timestamp` and `ABogus.Token*` lemmas.
- `string.hexdigits.lower()` is `"0123456789abcdefabcdef"`: `a`-`f` appear twice, so they are drawn twice as often as digits. The model keeps those 22 characters as written.
- The Base64 decoders `Base64.Decode` and `CustomBase64.Decode` have no counterpart in the source. They are there to state that the encodings lose nothing.
- Base64 in the model works on byte values as integers (`Bytes.Values`). `str.translate` is modelled for the standard letters and `=`, which are the only characters `b64encode` produces.
