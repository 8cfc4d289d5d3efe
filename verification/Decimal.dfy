/** Printing and scanning of integers as fmt does it with the verb %d. */
module Decimal {
  import opened Options

  const MAX_INT: int := 0x7FFF_FFFF_FFFF_FFFF
  const MIN_INT: int := -0x8000_0000_0000_0000

  predicate IsInt(n: int) { MIN_INT <= n <= MAX_INT }

  predicate IsDigit(c: char) { '0' <= c <= '9' }

  predicate IsBlank(c: char) { c == ' ' || c == '\t' || c == '\r' }

  function Digit(d: nat): (c: char)
    requires d < 10
    ensures IsDigit(c) && DigitValue(c) == d
  {
    ('0' as int + d) as char
  }

  function DigitValue(c: char): (d: nat)
    requires IsDigit(c)
    ensures d < 10
  {
    c as int - '0' as int
  }

  function Digits(n: nat): (s: string)
    ensures s != []
  {
    if n < 10 then [Digit(n)] else Digits(n / 10) + [Digit(n % 10)]
  }

  function Print(n: int): string { if n < 0 then ['-'] + Digits(-n) else Digits(n) }

  predicate AllDigits(s: string) { forall i :: 0 <= i < |s| ==> IsDigit(s[i]) }

  function Value(s: string): nat
    requires AllDigits(s)
  {
    if s == [] then 0 else 10 * Value(s[..|s| - 1]) + DigitValue(s[|s| - 1])
  }

  /** How many digits a text starts with. */
  function LeadingDigits(s: string): (n: nat)
    ensures n <= |s| && AllDigits(s[..n]) && (n < |s| ==> !IsDigit(s[n]))
  {
    if s == [] || !IsDigit(s[0]) then 0
    else
      var n := LeadingDigits(s[1..]);
      assert s[..n + 1] == [s[0]] + s[1..][..n];
      n + 1
  }

  function SkipBlanks(s: string): string {
    if s != [] && IsBlank(s[0]) then SkipBlanks(s[1..]) else s
  }

  function Signed(m: int, negative: bool): int { if negative then -m else m }

  /** Reads digits, if there are any and the number is not too large. */
  function ScanDigits(s: string, negative: bool): Option<int> {
    var n := LeadingDigits(s);
    if n == 0 then None
    else
      var v := Signed(Value(s[..n]), negative);
      if IsInt(v) then Some(v) else None
  }

  /** Reads one integer and leaves the rest unread. */
  function Scan(s: string): Option<int> {
    var t := SkipBlanks(s);
    ScanDigits(if t != [] && (t[0] == '-' || t[0] == '+') then t[1..] else t, t != [] && t[0] == '-')
  }

  lemma {:induction false} DigitsValue(n: nat)
    ensures AllDigits(Digits(n)) && Value(Digits(n)) == n
    decreases n
  {
    if n >= 10 {
      DigitsValue(n / 10);
      var s := Digits(n);
      assert s[..|s| - 1] == Digits(n / 10);
    } else {
      var s := Digits(n);
      assert s == [Digit(n)] && s[..0] == [];
    }
  }

  lemma {:induction false} LeadingAll(s: string, rest: string)
    requires AllDigits(s) && (rest != [] ==> !IsDigit(rest[0]))
    ensures LeadingDigits(s + rest) == |s|
    decreases |s|
  {
    if s == [] {
      assert s + rest == rest;
    } else {
      assert (s + rest)[1..] == s[1..] + rest;
      LeadingAll(s[1..], rest);
    }
  }

  lemma ScansDigits(m: nat, rest: string, negative: bool)
    requires IsInt(Signed(m, negative)) && (rest != [] ==> !IsDigit(rest[0]))
    ensures ScanDigits(Digits(m) + rest, negative) == Some(Signed(m, negative))
    ensures IsDigit(Digits(m)[0])
  {
    hide Digits, LeadingDigits, Value;
    var d := Digits(m);
    DigitsValue(m);
    LeadingAll(d, rest);
    assert (d + rest)[..|d|] == d;
  }

  lemma NothingToSkip(s: string)
    requires s != [] && !IsBlank(s[0])
    ensures SkipBlanks(s) == s
  {
  }

  /** Scanning a printed integer gives it back, whatever follows that is not a digit. */
  lemma {:induction false} ScanPrint(n: int, rest: string)
    requires IsInt(n) && (rest != [] ==> !IsDigit(rest[0]))
    ensures Scan(Print(n) + rest) == Some(n)
  {
    hide ScanDigits, Digits, SkipBlanks;
    var m: nat := if n < 0 then -n else n;
    ScansDigits(m, rest, n < 0);
    var s, d := Print(n) + rest, Digits(m);
    if n < 0 { assert s == ['-'] + (d + rest) && s[1..] == d + rest; }
    NothingToSkip(s);
  }

  predicate AllBlank(s: string) { forall i :: 0 <= i < |s| ==> IsBlank(s[i]) }

  lemma {:induction false} SkipsBlanks(blanks: string, t: string)
    requires AllBlank(blanks) && (t != [] ==> !IsBlank(t[0]))
    ensures SkipBlanks(blanks + t) == t
    decreases |blanks|
  {
    if blanks == [] {
      assert blanks + t == t;
    } else {
      assert (blanks + t)[1..] == blanks[1..] + t;
      SkipsBlanks(blanks[1..], t);
    }
  }

  /** What scanning any text gives: blanks are skipped, one sign is read and then digits, of
      which there must be some; a number that does not fit is refused. */
  lemma ScanMeans(blanks: string, sign: string, digits: string, rest: string)
    requires AllBlank(blanks) && (sign == "" || sign == "-" || sign == "+") && AllDigits(digits)
    requires rest != [] ==> !IsDigit(rest[0])
    requires sign == "" && digits == [] && rest != [] ==> !IsBlank(rest[0]) && rest[0] != '-' && rest[0] != '+'
    ensures var v := Signed(Value(digits), sign == "-");
      Scan(blanks + (sign + (digits + rest))) == if digits != [] && IsInt(v) then Some(v) else None
  {
    hide SkipBlanks, LeadingDigits, Value;
    var t := sign + (digits + rest);
    SkipsBlanks(blanks, t);
    LeadingAll(digits, rest);
    assert (digits + rest)[..|digits|] == digits;
    if sign == "" {
      assert t == digits + rest;
    } else {
      assert t[1..] == digits + rest;
    }
  }

  /** A printed integer is made of digits and at most a leading minus sign. */
  lemma PrintChars(n: int, i: int)
    requires 0 <= i < |Print(n)|
    ensures IsDigit(Print(n)[i]) || (i == 0 && Print(n)[i] == '-')
  {
    DigitsValue(if n < 0 then -n else n);
  }
}
