/**
 * Decimal text shared by the models of atoi (the file system) and of
 * stream insertion and extraction of integers (the chat codec): digit
 * runs, white space, and the decimal rendering of integers.
 */
module Decimal {

  predicate IsDigit(c: char)
  {
    '0' <= c <= '9'
  }

  /** The white-space class of the C locale (isspace). */
  predicate IsSpace(c: char)
  {
    c == ' ' || c == '\t' || c == '\n' || c == '\U{000B}' || c == '\U{000C}' || c == '\r'
  }

  function DigitChar(d: nat): (c: char)
    requires d < 10
    ensures IsDigit(c)
  {
    ('0' as int + d) as char
  }

  function DigitOf(c: char): (d: nat)
    requires IsDigit(c)
    ensures d < 10 && DigitChar(d) == c
  {
    c as int - '0' as int
  }

  predicate AllDigits(s: string)
  {
    forall i | 0 <= i < |s| :: IsDigit(s[i])
  }

  /** The value of the digits s[i..j], most significant first (0 when i == j; only digit runs are ever read). */
  function DigitsValue(s: string, i: nat, j: nat): nat
    requires i <= j <= |s|
    decreases j - i
  {
    if j == i then 0 else DigitsValue(s, i, j - 1) * 10 + (if IsDigit(s[j - 1]) then DigitOf(s[j - 1]) else 0)
  }

  /** The value depends only on the n characters read, wherever they stand. */
  lemma {:induction false} DigitsValueShift(s: string, i: nat, u: string, i': nat, n: nat)
    requires i + n <= |s| && i' + n <= |u|
    requires forall k | i <= k < i + n :: s[k] == u[k - i + i']
    ensures DigitsValue(s, i, i + n) == DigitsValue(u, i', i' + n)
    decreases n
  {
    if n > 0 {
      assert s[i + n - 1] == u[i' + n - 1];
      DigitsValueShift(s, i, u, i', n - 1);
    }
  }

  /** Decimal rendering of a natural number, without leading zeros. */
  function NatToString(n: nat): (s: string)
    ensures |s| > 0 && AllDigits(s)
    decreases n
  {
    if n < 10 then [DigitChar(n)] else NatToString(n / 10) + [DigitChar(n % 10)]
  }

  /** What `<<` writes for an int: a minus sign for negative values, then the digits. */
  function IntToString(n: int): string
  {
    if n < 0 then "-" + NatToString(-n) else NatToString(n)
  }

  /** Reading back the rendering gives the number. */
  lemma {:induction false} NatToStringValue(n: nat)
    ensures DigitsValue(NatToString(n), 0, |NatToString(n)|) == n
    decreases n
  {
    if n >= 10 {
      var s := NatToString(n);
      var h := NatToString(n / 10);
      assert s == h + [DigitChar(n % 10)];
      DigitsValueShift(s, 0, h, 0, |h|);
      NatToStringValue(n / 10);
    }
  }

  /** The end of the maximal run of digits starting at i. */
  function DigitRun(s: string, i: nat): (j: nat)
    requires i <= |s|
    ensures i <= j <= |s|
    ensures j == |s| || !IsDigit(s[j])
    decreases |s| - i
  {
    if i < |s| && IsDigit(s[i]) then DigitRun(s, i + 1) else i
  }

  /** The first position at or after i that is not white space. */
  function SkipSpace(s: string, i: nat): (j: nat)
    requires i <= |s|
    ensures i <= j <= |s|
    ensures j == |s| || !IsSpace(s[j])
    decreases |s| - i
  {
    if i < |s| && IsSpace(s[i]) then SkipSpace(s, i + 1) else i
  }

  /** A run of n digits at i, followed by the end or a non-digit, is the maximal run. */
  lemma {:induction false} DigitRunAt(s: string, i: nat, n: nat)
    requires i + n <= |s| && forall k | i <= k < i + n :: IsDigit(s[k])
    requires i + n == |s| || !IsDigit(s[i + n])
    ensures DigitRun(s, i) == i + n
    decreases n
  {
    if n > 0 {
      DigitRunAt(s, i + 1, n - 1);
    }
  }

  /** n spaces at i, followed by the end or a non-space, are skipped exactly. */
  lemma {:induction false} SkipSpaceAt(s: string, i: nat, n: nat)
    requires i + n <= |s|
    requires forall k | i <= k < i + n :: IsSpace(s[k])
    requires i + n == |s| || !IsSpace(s[i + n])
    ensures SkipSpace(s, i) == i + n
    decreases n
  {
    if n > 0 {
      SkipSpaceAt(s, i + 1, n - 1);
    }
  }

  /** The rendering of an int starts with '-' exactly for a negative value, otherwise with a digit. */
  lemma IntToStringShape(v: int)
    ensures var t := IntToString(v);
            && |t| > 0 && !IsSpace(t[0]) && t[0] != '+'
            && (t[0] == '-' <==> v < 0)
            && (v < 0 ==> t[1..] == NatToString(-v))
            && (v >= 0 ==> t == NatToString(v))
  {
    var t := IntToString(v);
    if v < 0 {
      assert t[1..] == NatToString(-v);
    } else {
      assert IsDigit(NatToString(v)[0]);
    }
  }

  /** A run of digits followed by the end or a non-digit is the maximal run, and its value is theirs. */
  lemma DigitsAt(s: string, j: nat, digits: string, rest: string)
    requires j <= |s| && s[j..] == digits + rest && AllDigits(digits)
    requires rest == [] || !IsDigit(rest[0])
    ensures |s| == j + |digits| + |rest|
    ensures DigitRun(s, j) == j + |digits|
    ensures DigitsValue(s, j, j + |digits|) == DigitsValue(digits, 0, |digits|)
  {
    DigitsCopied(s, j, digits, rest);
    DigitsRead(s, j, digits);
  }

  /** The digits standing at j, then the end or a non-digit: their run and its value. */
  lemma DigitsRead(s: string, j: nat, digits: string)
    requires j + |digits| <= |s|
    requires forall k | j <= k < j + |digits| :: s[k] == digits[k - j] && IsDigit(s[k])
    requires j + |digits| == |s| || !IsDigit(s[j + |digits|])
    ensures DigitRun(s, j) == j + |digits|
    ensures DigitsValue(s, j, j + |digits|) == DigitsValue(digits, 0, |digits|)
  {
    DigitRunAt(s, j, |digits|);
    DigitsValueShift(s, j, digits, 0, |digits|);
  }

  /** The characters of s from j are those of the digits, then the end or a non-digit. */
  lemma DigitsCopied(s: string, j: nat, digits: string, rest: string)
    requires j <= |s| && s[j..] == digits + rest && AllDigits(digits)
    requires rest == [] || !IsDigit(rest[0])
    ensures |s| == j + |digits| + |rest|
    ensures j + |digits| == |s| || !IsDigit(s[j + |digits|])
    ensures forall k | j <= k < j + |digits| :: s[k] == digits[k - j] && IsDigit(s[k])
  {
    forall k | j <= k < j + |digits|
      ensures s[k] == digits[k - j] && IsDigit(s[k])
    {
      assert s[k] == s[j..][k - j];
    }
    if rest != [] {
      assert s[j + |digits|] == s[j..][|digits|];
    }
  }
}
