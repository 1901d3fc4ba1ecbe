/**
 * The few pieces of the C library the shell's core leans on: C strings
 * (a character sequence whose terminator is implicit), `printf("%d")`,
 * `atoi` and a `realloc` of a pointer buffer.
 */
module CStrings {

  /** A C string's contents: everything before the terminating NUL. */
  predicate IsCString(s: string) {
    '\0' !in s
  }

  /** `s[i]` as C reads it: index `|s|` holds the terminating NUL. */
  function CharAt(s: string, i: nat): (c: char)
    requires i <= |s|
    ensures IsCString(s) ==> (c == '\0' <==> i == |s|)
  {
    if i < |s| then s[i] else '\0'
  }

  predicate IsDigit(c: char) {
    '0' <= c <= '9'
  }

  /** `isspace` in the C locale: space, \t, \n, \v, \f and \r. */
  predicate IsSpace(c: char) {
    c == ' ' || '\t' <= c <= '\r'
  }

  function DigitValue(c: char): (d: nat)
    requires IsDigit(c)
    ensures d < 10 && c == DigitChar(d)
  {
    c as int - '0' as int
  }

  function DigitChar(d: nat): (c: char)
    requires d < 10
    ensures IsDigit(c) && c as int - '0' as int == d
  {
    ('0' as int + d) as char
  }

  /** The decimal digits of `n`, most significant first, without leading zeros. */
  function NatToDecimal(n: nat): (s: string)
    ensures |s| >= 1
    ensures forall k :: 0 <= k < |s| ==> IsDigit(s[k])
    ensures |s| > 1 ==> s[0] != '0'
  {
    if n < 10 then [DigitChar(n)] else NatToDecimal(n / 10) + [DigitChar(n % 10)]
  }

  /** What `printf("%d", n)` writes. */
  function Itoa(n: int): (s: string)
    ensures s != [] && (IsDigit(s[0]) || s[0] == '-')
  {
    if n < 0 then "-" + NatToDecimal(-n) else NatToDecimal(n)
  }

  /** The value of a run of decimal digits. */
  function DigitsValue(ds: string): nat
    requires forall k :: 0 <= k < |ds| ==> IsDigit(ds[k])
  {
    if ds == [] then 0
    else DigitsValue(ds[..|ds| - 1]) * 10 + DigitValue(ds[|ds| - 1])
  }

  /** The longest prefix of `s` made of decimal digits. */
  function DigitPrefix(s: string): (ds: string)
    ensures |ds| <= |s| && ds == s[..|ds|]
    ensures forall k :: 0 <= k < |ds| ==> IsDigit(ds[k])
    ensures |ds| < |s| ==> !IsDigit(s[|ds|])
  {
    if s != [] && IsDigit(s[0]) then [s[0]] + DigitPrefix(s[1..]) else []
  }

  function SkipSpaces(s: string): (t: string)
    ensures |t| <= |s| && t == s[|s| - |t|..]
    ensures t != [] ==> !IsSpace(t[0])
  {
    if s != [] && IsSpace(s[0]) then SkipSpaces(s[1..]) else s
  }

  /**
   * `atoi`: leading white space is skipped, one optional sign is read, then
   * the longest run of digits; no digits gives 0. Overflow, which C leaves
   * undefined, is not modelled: the value is unbounded.
   */
  function Atoi(s: string): int {
    var t := SkipSpaces(s);
    if t != [] && t[0] == '-' then -(DigitsValue(DigitPrefix(t[1..])) as int)
    else if t != [] && t[0] == '+' then DigitsValue(DigitPrefix(t[1..]))
    else DigitsValue(DigitPrefix(t))
  }

  lemma {:induction false} DigitsValueOfDecimal(n: nat)
    ensures DigitsValue(NatToDecimal(n)) == n
  {
    if n >= 10 {
      var s := NatToDecimal(n / 10);
      var t := NatToDecimal(n);
      assert t == s + [DigitChar(n % 10)];
      assert t[..|t| - 1] == s;
      DigitsValueOfDecimal(n / 10);
    }
  }

  lemma {:induction false} DigitPrefixOfDigits(ds: string, rest: string)
    requires forall k :: 0 <= k < |ds| ==> IsDigit(ds[k])
    requires rest == [] || !IsDigit(rest[0])
    ensures DigitPrefix(ds + rest) == ds
  {
    if ds != [] {
      assert (ds + rest)[1..] == ds[1..] + rest;
      DigitPrefixOfDigits(ds[1..], rest);
    }
  }

  /**
   * `atoi` reads back what `printf("%d")` wrote, whatever follows the
   * number, as long as it does not start with a digit.
   */
  lemma ReadDecimal(m: nat, rest: string)
    requires rest == [] || !IsDigit(rest[0])
    ensures DigitsValue(DigitPrefix(NatToDecimal(m) + rest)) == m
  {
    DigitPrefixOfDigits(NatToDecimal(m), rest);
    DigitsValueOfDecimal(m);
  }

  /** A string that starts with a digit is read as its leading run of digits. */
  lemma AtoiOfDigitStart(s: string)
    requires s != [] && IsDigit(s[0])
    ensures Atoi(s) == DigitsValue(DigitPrefix(s))
  {
    assert !IsSpace(s[0]) && s[0] != '-' && s[0] != '+';
    assert SkipSpaces(s) == s;
  }

  /** `atoi` of a non-negative `%d` image followed by a non-digit. */
  lemma AtoiOfDecimal(m: nat, rest: string)
    requires rest == [] || !IsDigit(rest[0])
    ensures Atoi(NatToDecimal(m) + rest) == m
  {
    var s := NatToDecimal(m) + rest;
    assert s[0] == NatToDecimal(m)[0];
    AtoiOfDigitStart(s);
    ReadDecimal(m, rest);
  }

  /** `atoi` of a negative `%d` image followed by a non-digit. */
  lemma AtoiOfNegativeDecimal(m: nat, rest: string)
    requires rest == [] || !IsDigit(rest[0])
    ensures Atoi("-" + NatToDecimal(m) + rest) == -(m as int)
  {
    var s := "-" + NatToDecimal(m) + rest;
    assert SkipSpaces(s) == s by {
      assert !IsSpace(s[0]);
    }
    assert s[1..] == NatToDecimal(m) + rest;
    ReadDecimal(m, rest);
  }

  /**
   * `atoi` reads back what `printf("%d")` wrote, whatever follows the
   * number, as long as it does not start with a digit.
   */
  lemma {:induction false} AtoiItoa(n: int, rest: string)
    requires rest == [] || !IsDigit(rest[0])
    ensures Atoi(Itoa(n) + rest) == n
  {
    if n < 0 {
      AtoiOfNegativeDecimal(-n, rest);
    } else {
      AtoiOfDecimal(n, rest);
    }
  }

  /** A string that does not start (after blanks and a sign) with a digit reads as 0. */
  lemma AtoiOfNonNumeric(s: string)
    requires s != [] && !IsSpace(s[0]) && !IsDigit(s[0]) && s[0] != '-' && s[0] != '+'
    ensures Atoi(s) == 0
  {
  }

  /**
   * `realloc` of a buffer of pointers: a buffer of the new size whose first
   * entries are the old ones.
   */
  method Realloc(a: array<string>, newSize: nat) returns (b: array<string>)
    requires a.Length <= newSize
    ensures fresh(b) && b.Length == newSize
    ensures b[..a.Length] == a[..]
  {
    b := new string[newSize];
    forall k | 0 <= k < a.Length {
      b[k] := a[k];
    }
  }
}
