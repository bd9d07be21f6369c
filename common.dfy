/**
 * Shared C-level vocabulary: optional (nullable) values, machine integer
 * ranges of an LP64 Linux target, the C character classes the string
 * helpers rely on, and C's truncating integer division.
 */
module CTypes {

  datatype Option<T> = None | Some(value: T)

  const NUL: char := '\0'

  const UB4_LIMIT: int := 0x1_0000_0000
  const UB8_LIMIT: int := 0x1_0000_0000_0000_0000
  const SB8_LIMIT: int := 0x8000_0000_0000_0000

  /** `ub4` (uint32_t). */
  type ub4 = x: int | 0 <= x < UB4_LIMIT
  /** `ub8` (uint64_t) and `size_t` on LP64. */
  type ub8 = x: int | 0 <= x < UB8_LIMIT
  /** One byte of an argument buffer. */
  type byte = x: int | 0 <= x < 256

  /** The characters of a C string: everything before its terminating NUL. */
  type CStr = s: seq<char> | NUL !in s

  /** `isspace` in the C locale: the space, and tab, newline, vertical tab, form feed and carriage return (9 to 13). */
  predicate IsSpace(c: char) {
    c == ' ' || '\t' <= c <= '\r'
  }

  /** `isdigit`. */
  predicate IsDigit(c: char) {
    '0' <= c <= '9'
  }

  function DigitValue(c: char): (d: nat)
    requires IsDigit(c)
    ensures d < 10
  {
    c as int - '0' as int
  }

  function DigitChar(d: nat): (c: char)
    requires d < 10
    ensures IsDigit(c) && DigitValue(c) == d
  {
    ('0' as int + d) as char
  }

  /** `tolower` in the C locale. */
  function ToLower(c: char): (r: char)
    ensures 'A' <= c <= 'Z' ==> 'a' <= r <= 'z'
    ensures !('A' <= c <= 'Z') ==> r == c
  {
    if 'A' <= c <= 'Z' then (c as int + 32) as char else c
  }

  /** Absolute value. */
  function Abs(x: int): nat {
    if x < 0 then -x else x
  }

  /** C's `/` on signed integers: the quotient truncated toward zero. */
  function CDiv(a: int, b: int): (q: int)
    requires b != 0
    ensures a >= 0 && b > 0 ==> q == a / b
  {
    if (a >= 0) == (b > 0) then Abs(a) / Abs(b) else -(Abs(a) / Abs(b))
  }

  /** C's `%` on signed integers: the remainder takes the sign of the dividend. */
  function CRem(a: int, b: int): (r: int)
    requires b != 0
    ensures a >= 0 ==> r == Abs(a) % Abs(b)
    ensures a < 0 ==> r == -(Abs(a) % Abs(b))
  {
    if a >= 0 then Abs(a) % Abs(b) else -(Abs(a) % Abs(b))
  }

  /** `strlen` of a buffer holding a NUL: the index of its first NUL. */
  function StrLen(s: seq<char>): (n: nat)
    requires NUL in s
    ensures n < |s| && s[n] == NUL && NUL !in s[..n]
  {
    if s[0] == NUL then 0
    else
      assert NUL in s[1..];
      var n := StrLen(s[1..]);
      assert s[..n + 1] == [s[0]] + s[1..][..n];
      n + 1
  }

  /** The C string a NUL-holding buffer starts with. */
  function CString(s: seq<char>): CStr
    requires NUL in s
  {
    s[..StrLen(s)]
  }
}
