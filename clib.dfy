/** The few C library functions the search engine relies on, in the "C" locale:
    the <ctype.h> classifiers, strncmp, atoi and the "%d" conversion of printf.
    A C string is modelled by the characters before its terminating NUL, so a
    Dafny string never holds the terminator itself. */
module CLib {

  /** isspace: space, horizontal tab, newline, vertical tab, form feed, carriage return. */
  predicate IsSpace(c: char) {
    c == ' ' || c == '\t' || c == '\n' || c as int == 11 || c as int == 12 || c == '\r'
  }

  predicate IsUpper(c: char) { 'A' <= c <= 'Z' }

  predicate IsLower(c: char) { 'a' <= c <= 'z' }

  /** isalpha: the 52 ASCII letters. */
  predicate IsAlpha(c: char) { IsUpper(c) || IsLower(c) }

  predicate IsDigit(c: char) { '0' <= c <= '9' }

  /** tolower: maps an upper-case letter to its lower-case partner, any other character to itself. */
  function ToLower(c: char): char {
    if IsUpper(c) then (c as int + 32) as char else c
  }

  /** The character a C string holds at index i; past its end that is the terminator. */
  function CharAt(s: string, i: nat): char {
    if i < |s| then s[i] else '\0'
  }

  predicate NulFree(s: string) {
    forall i | 0 <= i < |s| :: s[i] != '\0'
  }

  /** strncmp: compares at most n characters, stopping at the first difference or
      at a terminator both strings reach together; 0 means "equal so far". */
  function StrNCmp(a: string, b: string, n: nat): int
    decreases n
  {
    if n == 0 then 0
    else
      var ca, cb := CharAt(a, 0), CharAt(b, 0);
      if ca != cb then ca as int - cb as int
      else if ca == '\0' then 0
      else StrNCmp(a[1..], b[1..], n - 1)
  }

  /** Comparing the first n characters of a NUL-free literal with a string, in either
      order, yields 0 exactly when the string begins with those n characters. */
  lemma {:induction false} StrNCmpPrefix(lit: string, w: string, n: nat)
    requires n <= |lit| && NulFree(lit)
    ensures StrNCmp(lit, w, n) == 0 <==> lit[..n] <= w
    ensures StrNCmp(w, lit, n) == 0 <==> lit[..n] <= w
  {
    if n > 0 {
      assert CharAt(lit, 0) == lit[0] != '\0';
      if |w| > 0 && w[0] == lit[0] {
        StrNCmpPrefix(lit[1..], w[1..], n - 1);
        assert lit[..n] == [lit[0]] + lit[1..][..n - 1];
        assert w == [w[0]] + w[1..];
      }
    }
  }

  function DigitChar(d: int): char
    requires 0 <= d < 10
  {
    ('0' as int + d) as char
  }

  /** printf's "%d" of a non-negative number: its decimal digits, most significant first. */
  function Decimal(n: nat): string
  {
    if n < 10 then [DigitChar(n)] else Decimal(n / 10) + [DigitChar(n % 10)]
  }

  lemma {:induction false} DecimalDigits(n: nat)
    ensures |Decimal(n)| > 0
    ensures forall i | 0 <= i < |Decimal(n)| :: IsDigit(Decimal(n)[i])
  {
    if n >= 10 {
      DecimalDigits(n / 10);
    }
  }

  /** atoi skips leading white space ... */
  function SkipSpace(s: string): string {
    if s != [] && IsSpace(s[0]) then SkipSpace(s[1..]) else s
  }

  /** ... then reads the longest run of digits ... */
  function LeadingDigits(s: string): string {
    if s != [] && IsDigit(s[0]) then [s[0]] + LeadingDigits(s[1..]) else []
  }

  function DigitsValue(ds: string): int {
    if ds == [] then 0 else DigitsValue(ds[..|ds| - 1]) * 10 + (ds[|ds| - 1] as int - '0' as int)
  }

  /** ... after an optional sign; no digits at all give 0. */
  function Atoi(s: string): int {
    var r := SkipSpace(s);
    if r != [] && r[0] == '-' then -DigitsValue(LeadingDigits(r[1..]))
    else if r != [] && r[0] == '+' then DigitsValue(LeadingDigits(r[1..]))
    else DigitsValue(LeadingDigits(r))
  }

  lemma {:induction false} LeadingDigitsAll(s: string)
    requires forall i | 0 <= i < |s| :: IsDigit(s[i])
    ensures LeadingDigits(s) == s
  {
    if s != [] {
      LeadingDigitsAll(s[1..]);
    }
  }

  lemma {:induction false} DigitsValueOfDecimal(n: nat)
    ensures DigitsValue(Decimal(n)) == n
  {
    var s := Decimal(n);
    if n >= 10 {
      DigitsValueOfDecimal(n / 10);
      assert s[..|s| - 1] == Decimal(n / 10);
    }
  }

  /** Reading back what "%d" printed gives the number again. */
  lemma AtoiOfDecimal(n: nat)
    ensures Atoi(Decimal(n)) == n
  {
    var s := Decimal(n);
    DecimalDigits(n);
    assert !IsSpace(s[0]) && s[0] != '-' && s[0] != '+';
    assert SkipSpace(s) == s;
    LeadingDigitsAll(s);
    DigitsValueOfDecimal(n);
  }

  /** A freshly allocated buffer holding a copy of s, as mem_calloc followed by strncpy makes. */
  method NewCString(s: string) returns (a: array<char>)
    ensures fresh(a) && a[..] == s
  {
    a := new char[|s|](i requires 0 <= i < |s| => s[i]);
  }
}
