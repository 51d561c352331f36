/**
 * NUL-terminated C strings. A string is modelled by the characters before
 * its terminator; reading past the end yields the terminator, as reading
 * `s[|s|]` does in C.
 */
module CString {

  import opened Wrappers

  const NUL: char := '\0'

  /** A narrow C string: no interior NUL, every character a byte. */
  predicate Valid(s: seq<char>)
  {
    forall i | 0 <= i < |s| :: s[i] != NUL && s[i] as int < 256
  }

  /** The character at index `i`, or the terminator at and beyond the end. */
  function At(s: seq<char>, i: nat): (c: char)
    ensures i < |s| ==> c == s[i]
    ensures i >= |s| ==> c == NUL
  {
    if i < |s| then s[i] else NUL
  }

  /** C's `isdigit` on the "C" locale. */
  predicate IsDigit(c: char)
  {
    '0' <= c <= '9'
  }

  /** True when every character of `s` is a decimal digit. */
  predicate AllDigits(s: seq<char>)
  {
    forall i | 0 <= i < |s| :: IsDigit(s[i])
  }

  /** `strlen` of a buffer: the index of its first NUL, or its length when it holds none. */
  function Strlen(s: seq<char>): (n: nat)
    ensures n <= |s|
    ensures forall k | 0 <= k < n :: s[k] != NUL
    ensures n < |s| ==> s[n] == NUL
  {
    if |s| == 0 || s[0] == NUL then 0 else 1 + Strlen(s[1..])
  }

  /** The string a buffer holds: its characters before the first NUL. */
  function Contents(buf: seq<char>): (s: seq<char>)
    ensures s == buf[..Strlen(buf)]
  {
    buf[..Strlen(buf)]
  }

  /** A buffer that holds `s` followed by a NUL reads back as `s`. */
  lemma {:induction false} ContentsOfTerminated(s: seq<char>, rest: seq<char>)
    requires forall k | 0 <= k < |s| :: s[k] != NUL
    ensures Contents(s + [NUL] + rest) == s
  {
    if |s| > 0 {
      assert (s + [NUL] + rest)[1..] == s[1..] + [NUL] + rest;
      ContentsOfTerminated(s[1..], rest);
    }
  }

  /** Index of the first occurrence of `c` in `s`, if any (`strchr`). */
  function IndexOf(s: seq<char>, c: char): (r: Option<nat>)
    ensures r.None? <==> c !in s
    ensures r.Some? ==> r.value < |s| && s[r.value] == c && c !in s[..r.value]
  {
    if |s| == 0 then None
    else if s[0] == c then Some(0)
    else
      var t := IndexOf(s[1..], c);
      assert s == [s[0]] + s[1..];
      if t.None? then None
      else
        assert s[..t.value + 1] == [s[0]] + s[1..][..t.value];
        Some(t.value + 1)
  }

  /** C's `strcmp`, by unsigned byte value; only the sign of the result is meaningful. */
  function Strcmp(a: seq<char>, b: seq<char>): (r: int)
    decreases |a|
  {
    if |a| == 0 || |b| == 0 || a[0] != b[0] then At(a, 0) as int - At(b, 0) as int
    else Strcmp(a[1..], b[1..])
  }

  /** `strcmp` returns zero exactly on equal strings. */
  lemma {:induction false} StrcmpZeroIffEqual(a: seq<char>, b: seq<char>)
    requires Valid(a) && Valid(b)
    ensures Strcmp(a, b) == 0 <==> a == b
    decreases |a|
  {
    if |a| == 0 || |b| == 0 || a[0] != b[0] {
      if a == b {
        assert |a| == 0;
      }
    } else {
      StrcmpZeroIffEqual(a[1..], b[1..]);
      assert a == [a[0]] + a[1..] && b == [b[0]] + b[1..];
    }
  }

  /** The value of a decimal digit. */
  function DigitValue(c: char): (v: nat)
    requires IsDigit(c)
    ensures v < 10
  {
    c as int - '0' as int
  }

  /** The digit character for a value below ten. */
  function DigitChar(v: nat): (c: char)
    requires v < 10
    ensures IsDigit(c) && DigitValue(c) == v
  {
    ('0' as int + v) as char
  }

  /** The number a run of decimal digits denotes, most significant first. */
  function DecimalValue(s: seq<char>): nat
    requires AllDigits(s)
  {
    if |s| == 0 then 0 else 10 * DecimalValue(s[..|s| - 1]) + DigitValue(s[|s| - 1])
  }

  /** The shortest decimal representation of `n`, as `printf("%d")` writes it. */
  function Decimal(n: nat): (s: seq<char>)
    ensures |s| > 0 && AllDigits(s)
    ensures n < 10 <==> |s| == 1
  {
    if n < 10 then [DigitChar(n)] else Decimal(n / 10) + [DigitChar(n % 10)]
  }

  /** Reading back a printed number gives the number. */
  lemma {:induction false} DecimalRoundTrip(n: nat)
    ensures DecimalValue(Decimal(n)) == n
  {
    if n >= 10 {
      var s := Decimal(n);
      assert s[..|s| - 1] == Decimal(n / 10);
      DecimalRoundTrip(n / 10);
    }
  }

  /** `printf("%02d", v)`: at least two characters, zero-padded after the sign. */
  function Format02d(v: int): (s: seq<char>)
    ensures |s| >= 2
    ensures 0 <= v < 100 ==> |s| == 2 && AllDigits(s) && DecimalValue(s) == v
    ensures v < 0 ==> s[0] == '-'
  {
    if v < 0 then
      var d := Decimal(-v);
      "-" + d
    else if v < 10 then
      DecimalRoundTrip(v);
      ['0'] + Decimal(v)
    else
      DecimalRoundTrip(v);
      Decimal(v)
  }
}
