/**
 * The pieces of C string handling the symbol lookup relies on: the
 * `%lx`/`%lu` numerals, `snprintf` into a fixed buffer, and reading a
 * NUL-terminated string back out of a buffer (`strdup`).
 */
module TextFormat {

  const Nul: char := '\0'

  /** The digit `printf` uses for `d`, lower case for `%lx`. */
  function DigitChar(d: nat): (c: char)
    requires d < 16
  {
    if d < 10 then ('0' as int + d) as char else ('a' as int + d - 10) as char
  }

  predicate IsDigitOf(c: char, base: nat)
  {
    || ('0' <= c <= '9' && c as int - '0' as int < base)
    || ('a' <= c <= 'f' && c as int - 'a' as int + 10 < base)
  }

  /** The value of a digit; the inverse of `DigitChar`. */
  function DigitValue(c: char, base: nat): (d: nat)
    requires IsDigitOf(c, base)
    ensures d < base && d < 16 && DigitChar(d) == c
  {
    if '0' <= c <= '9' then c as int - '0' as int else c as int - 'a' as int + 10
  }

  /** Euclidean division facts the numeral recursion needs. */
  lemma DivisionShrinks(n: nat, base: nat)
    requires 2 <= base && n >= base
    ensures 1 <= n / base < n
    ensures n == (n / base) * base + n % base && n % base < base
  {
    var q, m := n / base, n % base;
    assert n == q * base + m;
    var k: nat := base - 2;
    assert q * base == q * k + 2 * q;
    MulIsNat(q, k);
  }

  lemma MulIsNat(a: nat, b: nat)
    ensures a * b >= 0
  {
  }

  /** `n` written in `base` without leading zeros, as `%lu` (base 10) and `%lx` (base 16) print it. */
  function Numeral(n: nat, base: nat): (s: string)
    requires 2 <= base <= 16
    ensures |s| >= 1
    ensures forall i :: 0 <= i < |s| ==> IsDigitOf(s[i], base)
    ensures |s| == 1 || s[0] != '0'
    decreases n
  {
    if n < base then [DigitChar(n)]
    else
      DivisionShrinks(n, base);
      Numeral(n / base, base) + [DigitChar(n % base)]
  }

  /** The value a string of digits denotes. */
  function NumeralValue(s: string, base: nat): nat
    requires 2 <= base <= 16
    requires forall i :: 0 <= i < |s| ==> IsDigitOf(s[i], base)
    decreases |s|
  {
    if |s| == 0 then 0
    else
      var prefix := s[..|s| - 1];
      assert forall i :: 0 <= i < |prefix| ==> prefix[i] == s[i];
      var high := NumeralValue(prefix, base);
      MulIsNat(high, base);
      high * base + DigitValue(s[|s| - 1], base)
  }

  /** Reading a numeral back gives the number that was printed. */
  lemma {:induction false} NumeralRoundTrip(n: nat, base: nat)
    requires 2 <= base <= 16
    ensures NumeralValue(Numeral(n, base), base) == n
    decreases n
  {
    var s := Numeral(n, base);
    if n >= base {
      DivisionShrinks(n, base);
      NumeralRoundTrip(n / base, base);
      assert s[..|s| - 1] == Numeral(n / base, base);
    }
  }

  /** The longest run of digits of the base that ends a string: how a trailing numeral is read back. */
  function DigitSuffix(s: string, base: nat): (t: string)
    requires 2 <= base <= 16
    ensures |t| <= |s| && t == s[|s| - |t|..]
    ensures forall i :: 0 <= i < |t| ==> IsDigitOf(t[i], base)
    ensures |t| == |s| || !IsDigitOf(s[|s| - |t| - 1], base)
    decreases |s|
  {
    if |s| == 0 || !IsDigitOf(s[|s| - 1], base) then []
    else DigitSuffix(s[..|s| - 1], base) + [s[|s| - 1]]
  }

  /** Digits written after a non-digit are exactly what `DigitSuffix` reads back. */
  lemma {:induction false} DigitSuffixOf(p: string, d: string, base: nat)
    requires 2 <= base <= 16
    requires |p| > 0 && !IsDigitOf(p[|p| - 1], base)
    requires forall i :: 0 <= i < |d| ==> IsDigitOf(d[i], base)
    ensures DigitSuffix(p + d, base) == d
    decreases |d|
  {
    if |d| == 0 {
      assert p + d == p;
    } else {
      DigitSuffixOf(p, d[..|d| - 1], base);
      assert (p + d)[..|p + d| - 1] == p + d[..|d| - 1];
    }
  }

  /** The number of characters `snprintf` stores before its terminator. */
  function Written(size: nat, text: string): (n: nat)
    requires size > 0
    ensures n < size && n <= |text|
    ensures n == |text| || n == size - 1
  {
    if |text| < size then |text| else size - 1
  }

  /**
   * `snprintf(buf, size, "%s", text)` with C99 semantics: at most
   * `size - 1` characters of the text, then a terminator, the rest of the
   * buffer untouched; nothing at all is written when `size` is 0.
   */
  function Snprintf(buf: seq<char>, text: string): (r: seq<char>)
    ensures |r| == |buf|
    ensures |buf| == 0 ==> r == buf
    ensures |buf| > 0 ==>
              var n := Written(|buf|, text);
              r[..n] == text[..n] && r[n] == Nul && r[n + 1..] == buf[n + 1..]
  {
    if |buf| == 0 then buf
    else
      var n := Written(|buf|, text);
      text[..n] + [Nul] + buf[n + 1..]
  }

  /** The C string stored in a buffer: everything before the first terminator. */
  function CString(b: seq<char>): (s: string)
    ensures s <= b
    ensures Nul !in s
    ensures |s| < |b| ==> b[|s|] == Nul
    decreases |b|
  {
    if |b| == 0 || b[0] == Nul then []
    else [b[0]] + CString(b[1..])
  }

  /** A C string is determined by the characters up to its terminator. */
  lemma {:induction false} CStringOfTerminated(b: seq<char>, n: nat)
    requires n < |b| && b[n] == Nul
    ensures CString(b) == CString(b[..n])
    decreases n
  {
    if n > 0 && b[0] != Nul {
      CStringOfTerminated(b[1..], n - 1);
      assert b[1..][..n - 1] == b[..n][1..];
    }
  }

  /**
   * What `strdup` copies out of a buffer `snprintf` wrote: the text cut to
   * the capacity, and cut again at any terminator inside the text.
   */
  lemma SnprintfThenCString(buf: seq<char>, text: string)
    requires |buf| > 0
    ensures CString(Snprintf(buf, text)) == CString(text[..Written(|buf|, text)])
    ensures Nul !in text ==> CString(Snprintf(buf, text)) == text[..Written(|buf|, text)]
  {
    var n := Written(|buf|, text);
    var r := Snprintf(buf, text);
    CStringOfTerminated(r, n);
    assert r[..n] == text[..n];
    if Nul !in text {
      CStringOfNulFree(text[..n]);
    }
  }

  /** A string without terminator is its own C string. */
  lemma {:induction false} CStringOfNulFree(s: string)
    requires Nul !in s
    ensures CString(s) == s
    decreases |s|
  {
    if |s| > 0 {
      CStringOfNulFree(s[1..]);
      assert s == [s[0]] + s[1..];
    }
  }
}
