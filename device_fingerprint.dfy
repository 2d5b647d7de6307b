/**
 * The string builders of `DeviceFingerprintGenerator`: the base-36 encoder
 * `_base36_encode`, the `s_v_web_id` cookie `verify_<time>_<36 characters>`,
 * and the random `msToken` and `passport_csrf_token` strings.
 *
 * The clock is an integer parameter (milliseconds) and every
 * `random.choice(chars)` is the index it picks, passed in as `picks`.
 */
module DeviceFingerprint {

  /** `string.digits + string.ascii_lowercase`, the digits of `_base36_encode`. */
  const BASE36_CHARS: string := "0123456789abcdef" + "ghijklmnopqrstuv" + "wxyz"

  /** `string.digits + string.ascii_letters`, the characters of the `s_v_web_id` suffix. */
  const CHARS: string := "0123456789abcdef" + "ghijklmnopqrstuv" + "wxyzABCDEFGHIJKL" + "MNOPQRSTUVWXYZ"

  /** `string.digits + string.ascii_letters + "_-="`, the characters of `msToken`. */
  const MS_TOKEN_CHARS: string := CHARS + "_-="

  /** `string.hexdigits.lower()`: the ten digits and `a-f` twice, 22 characters. */
  const TOKEN_CHARS: string := "0123456789abcdef" + "abcdef"

  /** The default lengths of `generate_ms_token` and `generate_token`. */
  const MS_TOKEN_LENGTH: int := 108
  const TOKEN_LENGTH: int := 32

  /** The positions of the suffix that hold `'_'`. */
  predicate IsSeparator(i: int)
  {
    i == 8 || i == 13 || i == 18 || i == 23
  }

  /** `c` is a base-36 digit as `_base36_encode` writes them: `0-9` or `a-z`. */
  predicate IsBase36Char(c: char)
  {
    '0' <= c <= '9' || 'a' <= c <= 'z'
  }

  /** `c` is `0-9`, `a-z` or `A-Z`. */
  predicate IsAlnum(c: char)
  {
    '0' <= c <= '9' || 'a' <= c <= 'z' || 'A' <= c <= 'Z'
  }

  /** The base-36 digit of `d`: `0-9`, then `a-z`. */
  function Digit(d: int): (c: char)
    requires 0 <= d < 36
  {
    if d < 10 then ('0' as int + d) as char else ('a' as int + (d - 10)) as char
  }

  /** The value of a digit of a base-36 numeral. */
  function DigitValue(c: char): int
  {
    if '0' <= c <= '9' then c as int - '0' as int
    else if 'a' <= c <= 'z' then c as int - 'a' as int + 10
    else 0
  }

  /** A digit is a base-36 character and reads back as its value. */
  lemma DigitRoundTrip(d: int)
    requires 0 <= d < 36
    ensures IsBase36Char(Digit(d)) && DigitValue(Digit(d)) == d
    ensures Digit(d) == '0' <==> d == 0
  {
  }

  /** The literal digit string of the source is the table `Digit` describes. */
  lemma Base36CharsAt(d: int)
    requires 0 <= d < 36
    ensures |BASE36_CHARS| == 36 && BASE36_CHARS[d] == Digit(d)
  {
    assert d == 0 || d == 1 || d == 2 || d == 3 || d == 4 || d == 5 || d == 6 || d == 7 || d == 8
      || d == 9 || d == 10 || d == 11 || d == 12 || d == 13 || d == 14 || d == 15 || d == 16 || d == 17
      || d == 18 || d == 19 || d == 20 || d == 21 || d == 22 || d == 23 || d == 24 || d == 25 || d == 26
      || d == 27 || d == 28 || d == 29 || d == 30 || d == 31 || d == 32 || d == 33 || d == 34 || d == 35;
  }

  /** The base-36 numeral of `n`, most significant digit first; `"0"` for zero. */
  function ToBase36(n: nat): (s: string)
    ensures |s| >= 1
    ensures |s| == 1 <==> n < 36
    decreases n
  {
    if n < 36 then [Digit(n)] else ToBase36(n / 36) + [Digit(n % 36)]
  }

  /** The value of a base-36 numeral. */
  function FromBase36(s: string): int
    decreases |s|
  {
    if s == [] then 0 else FromBase36(s[..|s| - 1]) * 36 + DigitValue(s[|s| - 1])
  }

  /** `reversed(s)`. */
  function Reversed(s: string): (r: string)
    ensures |r| == |s|
    ensures forall i :: 0 <= i < |s| ==> r[i] == s[|s| - 1 - i]
    decreases |s|
  {
    if s == [] then [] else Reversed(s[1..]) + [s[0]]
  }

  /** Appending to a list puts the element in front of its reversal. */
  lemma {:induction false} ReversedAppend(s: string, c: char)
    ensures Reversed(s + [c]) == [c] + Reversed(s)
    decreases |s|
  {
    if s != [] {
      assert (s + [c])[1..] == s[1..] + [c];
      ReversedAppend(s[1..], c);
    }
  }

  /**
   * `_base36_encode(number)`: `"0"` for zero, otherwise the remainders of
   * repeated `divmod(number, 36)` written as digits and reversed. The loop
   * ends only for `number >= 0`; for a negative number it runs forever.
   */
  method Base36Encode(number: int) returns (s: string)
    requires number >= 0
    ensures s == ToBase36(number)
  {
    if number == 0 {
      return "0";
    }
    var result: string := [];
    var n := number;
    while n != 0
      invariant 0 <= n <= number
      invariant n == 0 ==> Reversed(result) == ToBase36(number)
      invariant n > 0 ==> ToBase36(number) == ToBase36(n) + Reversed(result)
      decreases n
    {
      var q, r := n / 36, n % 36;
      Base36CharsAt(r);
      ReversedAppend(result, BASE36_CHARS[r]);
      if q > 0 {
        assert ToBase36(n) == ToBase36(q) + [Digit(r)];
      }
      n := q;
      result := result + [BASE36_CHARS[r]];
    }
    s := Reversed(result);
  }

  /** `_base36_encode(0)` is `"0"`. */
  lemma Base36Zero()
    ensures ToBase36(0) == "0"
  {
  }

  /** Every character of the numeral is `0-9` or `a-z`, and the numeral is never empty. */
  lemma {:induction false} Base36Chars(n: nat)
    ensures |ToBase36(n)| >= 1
    ensures forall i :: 0 <= i < |ToBase36(n)| ==> IsBase36Char(ToBase36(n)[i])
    decreases n
  {
    if n < 36 {
      DigitRoundTrip(n);
    } else {
      Base36Chars(n / 36);
      DigitRoundTrip(n % 36);
    }
  }

  /** Reading the numeral back as base-36 digits gives `n`. */
  lemma {:induction false} Base36RoundTrip(n: nat)
    ensures FromBase36(ToBase36(n)) == n
    decreases n
  {
    DigitRoundTrip(n % 36);
    if n < 36 {
      assert [Digit(n)][..0] == [];
    } else {
      Base36RoundTrip(n / 36);
      var s := ToBase36(n / 36) + [Digit(n % 36)];
      assert s[..|s| - 1] == ToBase36(n / 36);
    }
  }

  /** A positive number has no leading zero. */
  lemma {:induction false} Base36NoLeadingZero(n: nat)
    requires n > 0
    ensures ToBase36(n)[0] != '0'
    decreases n
  {
    if n < 36 {
      DigitRoundTrip(n);
    } else {
      Base36NoLeadingZero(n / 36);
    }
  }

  /** Two numbers have the same numeral only if they are equal. */
  lemma Base36Injective(a: nat, b: nat)
    ensures ToBase36(a) == ToBase36(b) <==> a == b
  {
    if ToBase36(a) == ToBase36(b) {
      Base36RoundTrip(a);
      Base36RoundTrip(b);
    }
  }

  /** `str.lower()` on the ASCII letters: `A-Z` become `a-z`, every other character is kept. */
  function Lower(s: string): (r: string)
    ensures |r| == |s|
    ensures forall i :: 0 <= i < |s| ==> !('A' <= r[i] <= 'Z')
    ensures forall i :: 0 <= i < |s| && 'A' <= s[i] <= 'Z' ==> r[i] as int - 'a' as int == s[i] as int - 'A' as int
    ensures forall i :: 0 <= i < |s| && !('A' <= s[i] <= 'Z') ==> r[i] == s[i]
  {
    seq(|s|, i requires 0 <= i < |s| => if 'A' <= s[i] <= 'Z' then (s[i] as int + 32) as char else s[i])
  }

  /** The `.lower()` applied to the numeral changes nothing. */
  lemma LowerOfBase36(n: nat)
    ensures Lower(ToBase36(n)) == ToBase36(n)
  {
    Base36Chars(n);
  }

  /** The character the loop of `generate_sv_web_id` appends at position `i` when `random.choice` picks index `k`. */
  function SuffixChar(i: int, k: int): (c: char)
    requires 0 <= k < 62 && (i == 19 ==> k < 8)
    ensures c == '_' <==> IsSeparator(i)
    ensures !IsSeparator(i) ==> IsAlnum(c)
    ensures i == 19 ==> c in "89abcdef"
  {
    if IsSeparator(i) then '_'
    else if i == 19 then
      CharsEightToSixteen();
      CharsAt(8 + k);
      assert CHARS[8 + k] == "89abcdef"[k];
      CHARS[8 + k]
    else
      CharsAt(k);
      CHARS[k]
  }

  /**
   * The picks a suffix needs: an index into `chars` for each position, into
   * `chars[8:16]` at position 19. The source makes no `random.choice` at the
   * separator positions 8, 13, 18 and 23, and `SuffixChar` ignores the picks there.
   */
  predicate ValidPicks(picks: seq<int>)
  {
    |picks| == 36 && (forall i :: 0 <= i < 36 ==> 0 <= picks[i] < 62) && picks[19] < 8
  }

  /** The 36-character suffix for the picks. */
  function Suffix(picks: seq<int>): (s: string)
    requires ValidPicks(picks)
    ensures |s| == 36
  {
    seq(36, i requires 0 <= i < 36 => SuffixChar(i, picks[i]))
  }

  /** The `s_v_web_id` for clock `now` (milliseconds) and the picks. */
  function SvWebId(now: int, picks: seq<int>): (id: string)
    requires now - 100000 >= 0 && ValidPicks(picks)
    ensures |id| == 44 + |ToBase36(now - 100000)|
    ensures id[..7] == "verify_" && id[|id| - 36..] == Suffix(picks)
  {
    "verify_" + Lower(ToBase36(now - 100000)) + "_" + Suffix(picks)
  }

  /**
   * The docstring example of `generate_sv_web_id` has `A` at suffix
   * position 19, which the code draws from `"89abcdef"`: no picks give it.
   */
  lemma DocExampleNotProduced(picks: seq<int>)
    requires ValidPicks(picks)
    ensures Suffix(picks) != "ecYFX88p_LJSF_45ED_AYYO_L9cpMPlDEAJD"
  {
    SuffixLayout(picks);
    assert "ecYFX88p_LJSF_45ED_AYYO_L9cpMPlDEAJD"[19] == 'A';
  }

  /** `generate_sv_web_id()`, with the clock reading `now` and the picks of `random.choice` as inputs. */
  method GenerateSvWebId(now: int, picks: seq<int>) returns (id: string)
    requires now - 100000 >= 0 && ValidPicks(picks)
    ensures id == SvWebId(now, picks)
  {
    var timestamp := now - 100000;
    var timePart := Base36Encode(timestamp);
    timePart := Lower(timePart);
    var parts: string := [];
    for i := 0 to 36
      invariant |parts| == i
      invariant forall j :: 0 <= j < i ==> parts[j] == SuffixChar(j, picks[j])
    {
      if i == 8 || i == 13 || i == 18 || i == 23 {
        parts := parts + ['_'];
      } else if i == 19 {
        CharsEightToSixteen();
        parts := parts + [CHARS[8..16][picks[i]]];
      } else {
        parts := parts + [CHARS[picks[i]]];
      }
    }
    assert parts == Suffix(picks);
    id := "verify_" + timePart + "_" + parts;
  }

  /** `chars[8:16]` is `"89abcdef"`. */
  lemma CharsEightToSixteen()
    ensures |CHARS| == 62 && CHARS[8..16] == "89abcdef"
  {
  }

  /** Every character of `digits + ascii_letters` is a digit or an ASCII letter. */
  lemma CharsAt(k: int)
    requires 0 <= k < 62
    ensures IsAlnum(CHARS[k])
  {
    if k < 32 {
      CharsLow(k);
    } else {
      CharsHigh(k);
    }
  }

  /** The first 32 characters of `digits + ascii_letters` are digits and lower-case letters. */
  lemma CharsLow(k: int)
    requires 0 <= k < 32
    ensures IsAlnum(CHARS[k])
  {
    assert k == 0 || k == 1 || k == 2 || k == 3 || k == 4 || k == 5 || k == 6 || k == 7
      || k == 8 || k == 9 || k == 10 || k == 11 || k == 12 || k == 13 || k == 14 || k == 15
      || k == 16 || k == 17 || k == 18 || k == 19 || k == 20 || k == 21 || k == 22 || k == 23
      || k == 24 || k == 25 || k == 26 || k == 27 || k == 28 || k == 29 || k == 30 || k == 31;
  }

  /** The last 30 characters of `digits + ascii_letters` are letters. */
  lemma CharsHigh(k: int)
    requires 32 <= k < 62
    ensures IsAlnum(CHARS[k])
  {
    assert k == 32 || k == 33 || k == 34 || k == 35 || k == 36 || k == 37 || k == 38 || k == 39
      || k == 40 || k == 41 || k == 42 || k == 43 || k == 44 || k == 45 || k == 46 || k == 47
      || k == 48 || k == 49 || k == 50 || k == 51 || k == 52 || k == 53 || k == 54 || k == 55
      || k == 56 || k == 57 || k == 58 || k == 59 || k == 60 || k == 61;
  }

  /**
   * The suffix has `'_'` exactly at positions 8, 13, 18 and 23; position 19
   * is one of `"89abcdef"`; every other position is a digit or a letter.
   */
  lemma SuffixLayout(picks: seq<int>)
    requires ValidPicks(picks)
    ensures forall i :: 0 <= i < 36 ==> (Suffix(picks)[i] == '_' <==> IsSeparator(i))
    ensures Suffix(picks)[19] in "89abcdef"
    ensures forall i :: 0 <= i < 36 && !IsSeparator(i) ==> IsAlnum(Suffix(picks)[i])
  {
    var s := Suffix(picks);
    forall i | 0 <= i < 36 && !IsSeparator(i) ensures IsAlnum(s[i]) && s[i] != '_' {
      if i == 19 {
        CharsAt(8 + picks[i]);
      } else {
        CharsAt(picks[i]);
      }
    }
    CharsEightToSixteen();
    assert s[19] == "89abcdef"[picks[19]];
  }

  /** `s.split(sep)`: the pieces between the occurrences of `sep`. */
  function Split(s: string, sep: char): (r: seq<string>)
    ensures |r| >= 1
    decreases |s|
  {
    if s == [] then [""]
    else
      var rest := Split(s[1..], sep);
      if s[0] == sep then [""] + rest else [[s[0]] + rest[0]] + rest[1..]
  }

  /** `sep.join(pieces)`. */
  function Join(pieces: seq<string>, sep: char): string
    requires |pieces| >= 1
    decreases |pieces|
  {
    if |pieces| == 1 then pieces[0] else pieces[0] + [sep] + Join(pieces[1..], sep)
  }

  /** The pieces contain no separator, and joining them with it gives back the string. */
  lemma {:induction false} SplitJoin(s: string, sep: char)
    ensures forall j :: 0 <= j < |Split(s, sep)| ==> sep !in Split(s, sep)[j]
    ensures Join(Split(s, sep), sep) == s
    decreases |s|
  {
    if s != [] {
      var rest := Split(s[1..], sep);
      SplitJoin(s[1..], sep);
      if s[0] == sep {
        assert Split(s, sep)[1..] == rest;
      } else {
        var r := Split(s, sep);
        assert r[0] == [s[0]] + rest[0] && r[1..] == rest[1..];
        if |rest| > 1 {
          assert Join(rest, sep) == rest[0] + [sep] + Join(rest[1..], sep);
        }
        assert s == [s[0]] + s[1..];
      }
    }
  }

  /** A string without the separator is a single piece. */
  lemma {:induction false} SplitNone(s: string, sep: char)
    requires sep !in s
    ensures Split(s, sep) == [s]
    decreases |s|
  {
    if s != [] {
      SplitNone(s[1..], sep);
      assert s == [s[0]] + s[1..];
    }
  }

  /** The text before the first separator is the first piece. */
  lemma {:induction false} SplitFirst(x: string, sep: char, y: string)
    requires sep !in x
    ensures Split(x + [sep] + y, sep) == [x] + Split(y, sep)
    decreases |x|
  {
    if x == [] {
      assert ([sep] + y)[1..] == y;
    } else {
      SplitFirst(x[1..], sep, y);
      assert (x + [sep] + y)[1..] == x[1..] + [sep] + y;
      assert x == [x[0]] + x[1..];
    }
  }

  /** Splitting pieces joined by a separator they do not contain gives back the pieces. */
  lemma SplitJoined(a: string, b: string, c: string, d: string, e: string, f: string, g: string, sep: char)
    requires sep !in a && sep !in b && sep !in c && sep !in d && sep !in e && sep !in f && sep !in g
    ensures Split(a + [sep] + (b + [sep] + (c + [sep] + (d + [sep] + (e + [sep] + (f + [sep] + g))))), sep)
      == [a, b, c, d, e, f, g]
  {
    SplitNone(g, sep);
    SplitFirst(f, sep, g);
    SplitFirst(e, sep, f + [sep] + g);
    SplitFirst(d, sep, e + [sep] + (f + [sep] + g));
    SplitFirst(c, sep, d + [sep] + (e + [sep] + (f + [sep] + g)));
    SplitFirst(b, sep, c + [sep] + (d + [sep] + (e + [sep] + (f + [sep] + g))));
    SplitFirst(a, sep, b + [sep] + (c + [sep] + (d + [sep] + (e + [sep] + (f + [sep] + g)))));
  }

  /** The suffix is its five runs joined by `'_'`, none of which contains `'_'`. */
  lemma SuffixRuns(picks: seq<int>)
    requires ValidPicks(picks)
    ensures var s := Suffix(picks);
      s == s[..8] + ['_'] + (s[9..13] + ['_'] + (s[14..18] + ['_'] + (s[19..23] + ['_'] + s[24..]))) &&
      '_' !in s[..8] && '_' !in s[9..13] && '_' !in s[14..18] && '_' !in s[19..23] && '_' !in s[24..]
  {
    var s := Suffix(picks);
    SuffixLayout(picks);
    assert s == s[..8] + ['_'] + (s[9..13] + ['_'] + (s[14..18] + ['_'] + (s[19..23] + ['_'] + s[24..])));
  }

  /**
   * `s_v_web_id` starts with `verify_` and splits on `'_'` into seven pieces:
   * `verify`, the base-36 time and the five runs of the suffix.
   */
  lemma SvWebIdFields(now: int, picks: seq<int>)
    requires now - 100000 >= 0 && ValidPicks(picks)
    ensures SvWebId(now, picks)[..7] == "verify_"
    ensures var s := Suffix(picks);
      Split(SvWebId(now, picks), '_') ==
        ["verify", ToBase36(now - 100000), s[..8], s[9..13], s[14..18], s[19..23], s[24..]]
  {
    var t, s := ToBase36(now - 100000), Suffix(picks);
    LowerOfBase36(now - 100000);
    Base36Chars(now - 100000);
    assert '_' !in t;
    SuffixRuns(picks);
    assert SvWebId(now, picks) == "verify" + ['_'] + (t + ['_'] + s);
    SplitJoined("verify", t, s[..8], s[9..13], s[14..18], s[19..23], s[24..], '_');
  }

  /** The check of the test suite: the identifier splits into at least six pieces. */
  lemma SvWebIdPieceCount(now: int, picks: seq<int>)
    requires now - 100000 >= 0 && ValidPicks(picks)
    ensures |Split(SvWebId(now, picks), '_')| == 7 >= 6
  {
    SvWebIdFields(now, picks);
  }

  /** How many times `for _ in range(length)` runs: `length`, or none for a negative length. */
  function Repetitions(length: int): nat
  {
    if length < 0 then 0 else length
  }

  /** Picks that index `chars`: one per character, each below `|chars|`. */
  predicate PicksFor(length: int, picks: seq<int>, chars: string)
  {
    |picks| == Repetitions(length) && forall i :: 0 <= i < |picks| ==> 0 <= picks[i] < |chars|
  }

  /** `''.join(random.choice(chars) for _ in range(length))` for the picks. */
  function RandomString(length: int, picks: seq<int>, chars: string): (t: string)
    requires PicksFor(length, picks, chars)
    ensures |t| == Repetitions(length)
    ensures forall i :: 0 <= i < |t| ==> t[i] in chars
  {
    seq(|picks|, i requires 0 <= i < |picks| => chars[picks[i]])
  }

  /** `generate_ms_token(length)`. */
  function MsToken(length: int, picks: seq<int>): (t: string)
    requires PicksFor(length, picks, MS_TOKEN_CHARS)
    ensures |t| == Repetitions(length)
  {
    RandomString(length, picks, MS_TOKEN_CHARS)
  }

  /** `generate_token(length)`. */
  function CsrfToken(length: int, picks: seq<int>): (t: string)
    requires PicksFor(length, picks, TOKEN_CHARS)
    ensures |t| == Repetitions(length)
  {
    RandomString(length, picks, TOKEN_CHARS)
  }

  /** The `msToken` characters are 65: the 62 digits and letters, then `_`, `-` and `=`. */
  lemma MsTokenCharsAt(k: int)
    requires 0 <= k < |MS_TOKEN_CHARS|
    ensures |MS_TOKEN_CHARS| == 65
    ensures IsAlnum(MS_TOKEN_CHARS[k]) || MS_TOKEN_CHARS[k] in "_-="
  {
    if k < 62 {
      CharsAt(k);
    } else {
      assert MS_TOKEN_CHARS[k] == "_-="[k - 62];
    }
  }

  /** The `passport_csrf_token` characters are 22 lower-case hexadecimal digits. */
  lemma CsrfTokenCharsAt(k: int)
    requires 0 <= k < |TOKEN_CHARS|
    ensures |TOKEN_CHARS| == 22
    ensures '0' <= TOKEN_CHARS[k] <= '9' || 'a' <= TOKEN_CHARS[k] <= 'f'
  {
    assert k == 0 || k == 1 || k == 2 || k == 3 || k == 4 || k == 5 || k == 6 || k == 7 || k == 8
      || k == 9 || k == 10 || k == 11 || k == 12 || k == 13 || k == 14 || k == 15 || k == 16 || k == 17
      || k == 18 || k == 19 || k == 20 || k == 21;
  }

  /** A default `msToken` has 108 characters, each a digit, a letter, `_`, `-` or `=`. */
  lemma MsTokenDefault(picks: seq<int>)
    requires PicksFor(MS_TOKEN_LENGTH, picks, MS_TOKEN_CHARS)
    ensures |MsToken(MS_TOKEN_LENGTH, picks)| == 108
    ensures forall i :: 0 <= i < 108 ==>
      IsAlnum(MsToken(MS_TOKEN_LENGTH, picks)[i]) || MsToken(MS_TOKEN_LENGTH, picks)[i] in "_-="
  {
    forall i | 0 <= i < 108 ensures IsAlnum(MsToken(MS_TOKEN_LENGTH, picks)[i]) || MsToken(MS_TOKEN_LENGTH, picks)[i] in "_-=" {
      MsTokenCharsAt(picks[i]);
    }
  }

  /** A default `passport_csrf_token` has 32 lower-case hexadecimal digits. */
  lemma CsrfTokenDefault(picks: seq<int>)
    requires PicksFor(TOKEN_LENGTH, picks, TOKEN_CHARS)
    ensures |CsrfToken(TOKEN_LENGTH, picks)| == 32
    ensures forall i :: 0 <= i < 32 ==>
      '0' <= CsrfToken(TOKEN_LENGTH, picks)[i] <= '9' || 'a' <= CsrfToken(TOKEN_LENGTH, picks)[i] <= 'f'
  {
    forall i | 0 <= i < 32 ensures '0' <= CsrfToken(TOKEN_LENGTH, picks)[i] <= '9' || 'a' <= CsrfToken(TOKEN_LENGTH, picks)[i] <= 'f' {
      CsrfTokenCharsAt(picks[i]);
    }
  }
}
