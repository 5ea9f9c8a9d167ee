// Printing of numbers in kernel/lib.c. Characters go to a string; the source
// advances the caller's pointer past them.
module Format {
  import opened Common

  const INT_MIN: int := -0x8000_0000
  const INT_MAX: int := 0x7FFF_FFFF
  const WRAP: nat := 0x1_0000_0000

  // --- powers and lengths --------------------------------------------------------------------

  function Power(b: nat, e: nat): nat {
    if e == 0 then 1 else b * Power(b, e - 1)
  }

  lemma {:induction false} PowerPositive(b: nat, e: nat)
    requires b > 0
    ensures Power(b, e) > 0
  {
    if e > 0 {
      PowerPositive(b, e - 1);
      assert b * Power(b, e - 1) >= 1;
    }
  }

  lemma NotLess(b: nat, p: nat)
    requires b > 0
    ensures b * p >= p
  {
    assert b * p == p + (b - 1) * p;
  }

  lemma {:induction false} PowerGrows(b: nat, e: nat, f: nat)
    requires b > 0 && e <= f
    ensures Power(b, e) <= Power(b, f)
  {
    if e < f {
      PowerGrows(b, e, f - 1);
      NotLess(b, Power(b, f - 1));
    }
  }

  lemma DivDiv(n: nat, m: nat, b: nat)
    requires m > 0 && b > 0
    ensures m * b > 0 && n / (m * b) == n / m / b
  {
    var q, r := n / m, n % m;
    var s, t := q / b, q % b;
    Regroup(n, m, b, q, r, s, t);
    SmallRest(m, b, r, t);
    NotLess(b, m);
    DivUnique(n, s, t * m + r, m * b);
  }

  lemma Regroup(n: nat, m: nat, b: nat, q: nat, r: nat, s: nat, t: nat)
    requires n == q * m + r && q == s * b + t
    ensures n == s * (m * b) + (t * m + r)
  {
    assert q * m == (s * b) * m + t * m;
    assert (s * b) * m == s * (m * b);
  }

  lemma SmallRest(m: nat, b: nat, r: nat, t: nat)
    requires r < m && t < b
    ensures t * m + r < m * b
  {
    assert m * b - t * m == (b - t) * m;
    NotLess(b - t, m);
  }

  // The number of digits is the least that holds the number.
  ghost predicate IsLength(n: nat, b: nat, length: nat) {
    length > 0 && n < Power(b, length) && (n > 0 ==> Power(b, length - 1) <= n) && (n == 0 ==> length == 1)
  }

  // pow, on 32 bits; where the power is small it is the power
  method Pow(b: nat, e: nat) returns (r: nat)
    ensures r == Power(b, e) % WRAP
  {
    r := 1;
    var i := 0;
    while i < e
      invariant i <= e && r == Power(b, i) % WRAP
    {
      ModProduct(Power(b, i), b);
      r := r * b % WRAP;
      i := i + 1;
    }
  }

  lemma ModProduct(p: nat, b: nat)
    ensures (p % WRAP) * b % WRAP == b * p % WRAP
  {
    var q, r := p / WRAP, p % WRAP;
    assert b * p == WRAP * (b * q) + r * b by {
      assert p == WRAP * q + r;
      assert b * (WRAP * q + r) == WRAP * (b * q) + r * b;
    }
    var s, t := r * b / WRAP, r * b % WRAP;
    assert b * p == WRAP * (b * q + s) + t;
    DivUnique(b * p, b * q + s, t, WRAP);
  }

  // n divided by b, k times over
  function Quotient(n: nat, b: nat, k: nat): nat
    requires b > 0
  {
    if k == 0 then n else Quotient(n, b, k - 1) / b
  }

  lemma {:induction false} QuotientIsDivision(n: nat, b: nat, k: nat)
    requires b > 0
    ensures Power(b, k) > 0 && Quotient(n, b, k) == n / Power(b, k)
  {
    PowerPositive(b, k);
    if k > 0 {
      QuotientIsDivision(n, b, k - 1);
      DivDiv(n, Power(b, k - 1), b);
      assert Power(b, k - 1) * b == Power(b, k);
    }
  }

  lemma QuotientIsZero(n: nat, b: nat, k: nat)
    requires b > 0
    ensures Quotient(n, b, k) == 0 <==> n < Power(b, k)
  {
    QuotientIsDivision(n, b, k);
    Below(n, Power(b, k));
  }

  lemma Below(n: nat, m: nat)
    requires m > 0
    ensures n / m == 0 <==> n < m
  {
    assert n == (n / m) * m + n % m;
    NotLess(if n / m > 0 then n / m else 1, m);
  }

  // ulen; len is the same of the absolute value
  method ULen(number: nat, base: nat) returns (length: nat)
    requires base > 1
    ensures IsLength(number, base, length)
  {
    length := 1;
    var div := number;
    while div > 0
      invariant length > 0 && div == Quotient(number, base, length - 1)
      invariant number == 0 ==> length == 1 && div == 0
      invariant number > 0 ==> div > 0
      decreases div
    {
      Shrinks(div, base);
      div := div / base;
      if div == 0 {
        break;
      }
      length := length + 1;
    }
    QuotientIsZero(number, base, length);
    QuotientIsZero(number, base, length - 1);
  }

  lemma Shrinks(n: nat, b: nat)
    requires b > 1 && n > 0
    ensures n / b < n
  {
    assert n == (n / b) * b + n % b;
    assert (n / b) * b == (n / b) * (b - 1) + n / b;
    NotNegative(n / b - 1, b - 1);
    NotLess(b - 1, n / b);
  }

  lemma NotNegative(d: int, b: nat)
    ensures d >= 0 ==> d * b >= 0
  {}

  // --- digits --------------------------------------------------------------------------------------

  // The character of a digit. A remainder of a negative number is negative in C.
  function Char(digit: int): char
    requires -48 <= digit
  {
    if digit < 10 then (48 + digit) as char else if digit < 16 then (97 + digit - 10) as char else '?'
  }

  // The last `count` digits of n, each negated if `sign` is -1.
  function Digits(n: nat, b: nat, count: nat, sign: int): (s: string)
    requires 1 < b <= 16 && (sign == 1 || sign == -1)
    ensures |s| == count
    decreases count
  {
    if count == 0 then [] else Digits(n / b, b, count - 1, sign) + [Char(sign * (n % b))]
  }

  function DigitValue(c: char): int {
    if '0' <= c <= '9' then c as int - 48 else if 'a' <= c <= 'f' then c as int - 97 + 10 else -1
  }

  // The digits are the usual ones, small letters above nine.
  lemma UsualDigits(d: nat)
    requires d < 16
    ensures Char(d) == "0123456789abcdef"[d] && DigitValue("0123456789abcdef"[d]) == d
  {
    assert d == 0 || d == 1 || d == 2 || d == 3 || d == 4 || d == 5 || d == 6 || d == 7
        || d == 8 || d == 9 || d == 10 || d == 11 || d == 12 || d == 13 || d == 14 || d == 15;
  }

  predicate AllDigits(s: string, b: nat) {
    forall i :: 0 <= i < |s| ==> 0 <= DigitValue(s[i]) < b
  }

  // What a reader makes of the digits.
  function Value(s: string, b: nat): int {
    if s == [] then 0 else Value(s[..|s| - 1], b) * b + DigitValue(s[|s| - 1])
  }

  lemma {:induction false} ValueOfDigits(n: nat, b: nat, count: nat)
    requires 1 < b <= 16 && n < Power(b, count)
    ensures AllDigits(Digits(n, b, count, 1), b) && Value(Digits(n, b, count, 1), b) == n
    decreases count
  {
    if count > 0 {
      var q, d := n / b, n % b;
      assert n == q * b + d;
      QuotientBelow(n, b, Power(b, count - 1));
      ValueOfDigits(q, b, count - 1);
      OneMoreDigit(Digits(q, b, count - 1, 1), b, d);
      DigitsSplit(n, b, count);
    }
  }

  lemma DigitsSplit(n: nat, b: nat, count: nat)
    requires 1 < b <= 16 && count > 0
    ensures Digits(n, b, count, 1) == Digits(n / b, b, count - 1, 1) + [Char(n % b)]
  {}

  lemma OneMoreDigit(s: string, b: nat, d: nat)
    requires d < b <= 16
    ensures DigitValue(Char(d)) == d && Value(s + [Char(d)], b) == Value(s, b) * b + d
    ensures AllDigits(s, b) ==> AllDigits(s + [Char(d)], b)
  {
    assert (s + [Char(d)])[..|s|] == s;
  }

  lemma QuotientBelow(n: nat, b: nat, p: nat)
    requires b > 0 && n < b * p
    ensures n / b < p
  {
    assert n == (n / b) * b + n % b;
    NotNegative(n / b - p, b);
    assert (n / b - p) * b == (n / b) * b - b * p;
  }

  // A number as one expects to read it: digits only, and no 0 in front.
  ghost predicate Numeral(s: string, b: nat, n: nat) {
    s != [] && AllDigits(s, b) && Value(s, b) == n && (s[0] == '0' ==> s == "0")
  }

  lemma DigitsAreNumeral(n: nat, b: nat, count: nat)
    requires 1 < b <= 16 && IsLength(n, b, count)
    ensures Numeral(Digits(n, b, count, 1), b, n)
  {
    ValueOfDigits(n, b, count);
    if n > 0 {
      FirstDigit(n, b, count);
    }
  }

  lemma {:induction false} FirstDigit(n: nat, b: nat, count: nat)
    requires 1 < b <= 16 && count > 0 && n < Power(b, count) && Power(b, count - 1) <= n
    ensures Digits(n, b, count, 1)[0] != '0'
    decreases count
  {
    if count > 1 {
      QuotientBelow(n, b, Power(b, count - 1));
      QuotientAbove(n, b, Power(b, count - 2));
      FirstDigit(n / b, b, count - 1);
    }
  }

  lemma QuotientAbove(n: nat, b: nat, p: nat)
    requires b > 0 && b * p <= n
    ensures p <= n / b
  {
    assert n == (n / b) * b + n % b;
    Scaled(n / b - p, b);
    assert (n / b - p) * b == (n / b) * b - b * p;
  }

  /** There is only one numeral of a number. */
  lemma {:induction false} NumeralIsUnique(s: string, t: string, b: nat, n: nat)
    requires 1 < b <= 16 && Numeral(s, b, n) && Numeral(t, b, n)
    ensures s == t
    decreases |s|
  {
    SplitNumeral(s, b, n);
    SplitNumeral(t, b, n);
    if |s| == 1 || |t| == 1 {
    } else {
      NumeralIsUnique(s[..|s| - 1], t[..|t| - 1], b, n / b);
      SameDigit(s[|s| - 1], t[|t| - 1]);
      assert s == s[..|s| - 1] + [s[|s| - 1]] && t == t[..|t| - 1] + [t[|t| - 1]];
    }
  }

  lemma SameDigit(c: char, d: char)
    requires DigitValue(c) == DigitValue(d) >= 0
    ensures c == d
  {}

  // The last digit of a numeral, and the numeral before it.
  lemma SplitNumeral(s: string, b: nat, n: nat)
    requires 1 < b <= 16 && Numeral(s, b, n)
    ensures DigitValue(s[|s| - 1]) == n % b
    ensures if |s| == 1 then n < b else n >= b && Numeral(s[..|s| - 1], b, n / b)
  {
    var front, d := s[..|s| - 1], DigitValue(s[|s| - 1]);
    ValueIsNatural(front, b);
    DivUnique(n, Value(front, b), d, b);
    if |s| > 1 {
      FirstCounts(front, b);
      NotLess(Value(front, b), b);
    }
  }

  lemma {:induction false} ValueIsNatural(s: string, b: nat)
    requires AllDigits(s, b)
    ensures Value(s, b) >= 0
  {
    if s != [] {
      ValueIsNatural(s[..|s| - 1], b);
      NotNegative(Value(s[..|s| - 1], b), b);
    }
  }

  lemma {:induction false} FirstCounts(s: string, b: nat)
    requires AllDigits(s, b) && s != [] && s[0] != '0' && b > 0
    ensures Value(s, b) > 0
  {
    if |s| == 1 {
      assert s[..0] == [];
    } else {
      FirstCounts(s[..|s| - 1], b);
      NotLess(Value(s[..|s| - 1], b), b);
    }
  }

  // --- the printing functions --------------------------------------------------------------------------

  // print_udec
  method PrintUdec(number: nat) returns (s: string, size: nat)
    requires number < WRAP
    ensures Numeral(s, 10, number) && size == |s|
  {
    var ln := ULen(number, 10);
    UdecLength(number, ln);
    var mult := Pow(10, ln - 1);
    s := [];
    var i := 0;
    while i < ln
      invariant DigitsSoFar(number, ln, i, 1, mult, s)
    {
      PowerPositive(10, ln - 1 - i);
      QuotientIsDivision(number, 10, ln - 1 - i);
      var digit := number / mult % 10;
      OneMoreDecDigit(number, ln, i, 1, mult, s, digit);
      s := s + [(48 + digit) as char];
      mult := mult / 10;
      i := i + 1;
    }
    size := ln;
    DigitsAreNumeral(number, 10, ln);
  }

  lemma PowerDown(b: nat, e: nat)
    requires b > 1
    ensures Power(b, e) / b == if e == 0 then 0 else Power(b, e - 1)
  {
    if e == 0 {
      DivUnique(1, 0, 1, b);
    } else {
      DivUnique(Power(b, e), Power(b, e - 1), 0, b);
    }
  }

  // A number of 32 bits has at most 10 decimal and 8 hexadecimal digits.
  lemma UdecLength(number: nat, length: nat)
    requires number < WRAP && IsLength(number, 10, length)
    ensures length <= 10 && Power(10, length - 1) < INT_MAX
  {
    assert Power(10, 10) == 10_000_000_000;
    if length > 10 {
      PowerGrows(10, 10, length - 1);
    }
    PowerGrows(10, length - 1, 9);
    assert Power(10, 9) == 1_000_000_000;
  }

  // Division and remainder of C, which truncate toward zero.
  function CDiv(a: int, b: nat): int
    requires b > 0
  {
    if a >= 0 then a / b else -(-a / b)
  }

  function CRem(a: int, b: nat): int
    requires b > 0
  {
    a - b * CDiv(a, b)
  }

  // -number on 32 bits: the least number has no opposite.
  function Negated(number: int): int {
    if number == INT_MIN then INT_MIN else -number
  }

  function Abs(number: int): nat {
    if number < 0 then -number else number
  }

  // The text is the number, with a sign if it is negative.
  ghost predicate ReadsAs(s: string, number: int) {
    if number < 0 then s != [] && s[0] == '-' && Numeral(s[1..], 10, -number) else Numeral(s, 10, number)
  }

  lemma SignedQuotient(n: nat, m: nat, sign: int)
    requires m > 0 && (sign == 1 || sign == -1)
    ensures CDiv(sign * n, m) == sign * (n / m)
  {
    if n == 0 {
      DivUnique(0, 0, 0, m);
    }
  }

  lemma SignedRemainder(q: nat, sign: int)
    requires sign == 1 || sign == -1
    ensures CRem(sign * q, 10) == sign * (q % 10)
  {}

  /** put_dec prints any number but the least one so that it reads as itself;
      that one has no opposite, and its digits come out negative. */
  method PutDec(number: int) returns (s: string, size: nat)
    requires INT_MIN <= number <= INT_MAX
    ensures ReadsAs(s, number) <==> number != INT_MIN
    ensures number == INT_MIN ==> s == "-./,),(-*,("
    ensures size == |s|
  {
    s, size := [], 0;
    var ln := ULen(Abs(number), 10);
    var left := number;
    if left < 0 {
      s := "-";
      left := Negated(left);
      size := 1;
    }
    ghost var sign: int := if number == INT_MIN then -1 else 1;
    ghost var n := Abs(number);
    var digits := DecDigits(left, ln, n, sign);
    s := s + digits;
    size := size + ln;
    if number == INT_MIN {
      LeastText(ln);
    } else {
      SignedText(number, ln, digits);
    }
  }

  lemma LeastText(ln: nat)
    requires IsLength(0x8000_0000, 10, ln)
    ensures ln == 10 && "-" + Digits(0x8000_0000, 10, ln, -1) == "-./,),(-*,(" && !ReadsAs("-./,),(-*,(", INT_MIN)
  {
    LeastNumber(ln);
    assert "-./,),(-*,("[1..][0] == '.' && DigitValue('.') == -1;
  }

  lemma SignedText(number: int, ln: nat, digits: string)
    requires IsLength(Abs(number), 10, ln) && digits == Digits(Abs(number), 10, ln, 1)
    ensures ReadsAs((if number < 0 then "-" else "") + digits, number)
  {
    DigitsAreNumeral(Abs(number), 10, ln);
    assert ("-" + digits)[1..] == digits && "" + digits == digits;
  }

  // Its loop, on a number that may still be negative.
  method DecDigits(left: int, ln: nat, ghost n: nat, ghost sign: int) returns (s: string)
    requires (sign == 1 || sign == -1) && left == sign * n && n < WRAP && IsLength(n, 10, ln)
    ensures s == Digits(n, 10, ln, sign)
  {
    UdecLength(n, ln);
    var mult := Pow(10, ln - 1);
    s := "";
    var i := 0;
    while i < ln
      invariant DigitsSoFar(n, ln, i, sign, mult, s)
    {
      PowerPositive(10, ln - 1 - i);
      var digit := DigitAt(left, mult, n, ln - 1 - i, sign);
      OneMoreDecDigit(n, ln, i, sign, mult, s, digit);
      s := s + [(48 + digit) as char];
      mult := mult / 10;
      i := i + 1;
    }
  }

  ghost predicate DigitsSoFar(n: nat, ln: nat, i: nat, sign: int, mult: int, s: string) {
    && (sign == 1 || sign == -1) && i <= ln && mult == (if i < ln then Power(10, ln - 1 - i) else 0)
    && s == Digits(Quotient(n, 10, ln - i), 10, i, sign)
  }

  lemma OneMoreDecDigit(n: nat, ln: nat, i: nat, sign: int, mult: int, s: string, digit: int)
    requires DigitsSoFar(n, ln, i, sign, mult, s) && i < ln
    requires digit == sign * (Quotient(n, 10, ln - 1 - i) % 10) && -9 <= digit <= 9
    ensures DigitsSoFar(n, ln, i + 1, sign, mult / 10, s + [(48 + digit) as char])
  {
    NextDigit(n, ln - 1 - i, i, sign);
    PowerDown(10, ln - 1 - i);
  }

  // (number / mult) % 10, for the digit at place k
  method DigitAt(left: int, mult: nat, ghost n: nat, ghost k: nat, ghost sign: int) returns (digit: int)
    requires (sign == 1 || sign == -1) && left == sign * n && mult == Power(10, k) > 0
    ensures digit == sign * (Quotient(n, 10, k) % 10) && -9 <= digit <= 9
  {
    QuotientIsDivision(n, 10, k);
    SignedQuotient(n, mult, sign);
    SignedRemainder(n / mult, sign);
    digit := CRem(CDiv(left, mult), 10);
  }

  lemma NextDigit(n: nat, k: nat, i: nat, sign: int)
    requires sign == 1 || sign == -1
    ensures Digits(Quotient(n, 10, k), 10, i + 1, sign)
            == Digits(Quotient(n, 10, k + 1), 10, i, sign) + [(48 + sign * (Quotient(n, 10, k) % 10)) as char]
  {}

  // 2147483648 with all digits negated
  lemma LeastNumber(length: nat)
    requires IsLength(0x8000_0000, 10, length)
    ensures length == 10 && Digits(0x8000_0000, 10, 10, -1) == "./,),(-*,("
  {
    UdecLength(0x8000_0000, length);
    assert Power(10, 9) == 1_000_000_000;
    if length < 10 {
      PowerGrows(10, length, 9);
    }
    var s := Digits(0x8000_0000, 10, 10, -1);
    assert Digits(2, 10, 1, -1) == ".";
    assert Digits(21, 10, 2, -1) == "./";
    assert Digits(214, 10, 3, -1) == "./,";
    assert Digits(2147, 10, 4, -1) == "./,)";
    assert Digits(21474, 10, 5, -1) == "./,),";
    assert Digits(214748, 10, 6, -1) == "./,),(";
    assert Digits(2147483, 10, 7, -1) == "./,),(-";
    assert Digits(21474836, 10, 8, -1) == "./,),(-*";
    assert Digits(214748364, 10, 9, -1) == "./,),(-*,";
  }

  // The digits of a number that needs fewer begin with zeros.
  lemma {:induction false} LeadingZeros(n: nat, b: nat, count: nat, zeros: nat)
    requires 1 < b <= 16 && n < Power(b, count)
    ensures Digits(n, b, zeros + count, 1) == seq(zeros, _ => '0') + Digits(n, b, count, 1)
    decreases count
  {
    if count == 0 {
      AllZeros(b, zeros);
    } else {
      QuotientBelow(n, b, Power(b, count - 1));
      LeadingZeros(n / b, b, count - 1, zeros);
      var d := [Char(n % b)];
      assert Digits(n, b, count, 1) == Digits(n / b, b, count - 1, 1) + d;
      assert Digits(n, b, zeros + count, 1) == Digits(n / b, b, zeros + count - 1, 1) + d;
    }
  }

  lemma {:induction false} AllZeros(b: nat, zeros: nat)
    requires 1 < b <= 16
    ensures Digits(0, b, zeros, 1) == seq(zeros, _ => '0')
  {
    if zeros > 0 {
      AllZeros(b, zeros - 1);
      assert 0 / b == 0 && 0 % b == 0;
    }
  }

  lemma HexLength(number: nat, length: nat)
    requires number < WRAP && IsLength(number, 16, length)
    ensures length <= 8 && Power(16, length - 1) < WRAP && (length == 8 <==> number >= 0x1000_0000)
  {
    assert Power(16, 4) == 0x1_0000;
    assert Power(16, 7) == 0x1000_0000;
    assert Power(16, 8) == 0x1_0000_0000;
    if length > 8 {
      PowerGrows(16, 8, length - 1);
    }
    if length < 8 {
      PowerGrows(16, length, 7);
    }
    PowerGrows(16, length - 1, 7);
  }

  /** put_uhex prints 0x and exactly eight digits, but answers the number of
      significant digits and 2: the number of characters only from 2^28 on. */
  method PutUhex(number: nat) returns (s: string, size: nat)
    requires number < WRAP
    ensures |s| == 10 && s[..2] == "0x" && AllDigits(s[2..], 16) && Value(s[2..], 16) == number
    ensures size == |s| <==> number >= 0x1000_0000
  {
    var ln := ULen(number, 16);
    HexLength(number, ln);
    s := "0x";
    var i := 0;
    while i < 8 - ln
      invariant i <= 8 - ln && s == "0x" + seq(i, _ => '0')
    {
      s := s + ['0'];
      i := i + 1;
    }
    var digits := HexDigits(number, ln);
    s := s + digits;
    size := ln + 2;
    PaddedHex(number, ln);
    assert s[2..] == seq(8 - ln, _ => '0') + digits;
  }

  lemma PaddedHex(number: nat, ln: nat)
    requires number < WRAP && ln <= 8 && IsLength(number, 16, ln)
    ensures var t := seq(8 - ln, _ => '0') + Digits(number, 16, ln, 1);
            |t| == 8 && AllDigits(t, 16) && Value(t, 16) == number
  {
    LeadingZeros(number, 16, ln, 8 - ln);
    PowerGrows(16, ln, 8);
    ValueOfDigits(number, 16, 8);
  }

  // Its last loop.
  method HexDigits(number: nat, ln: nat) returns (s: string)
    requires IsLength(number, 16, ln) && number < WRAP
    ensures s == Digits(number, 16, ln, 1)
  {
    HexLength(number, ln);
    var mult := Pow(16, ln - 1);
    s := "";
    var i := 0;
    while i < ln
      invariant i <= ln && mult == (if i < ln then Power(16, ln - 1 - i) else 0)
      invariant s == Digits(Quotient(number, 16, ln - i), 16, i, 1)
    {
      QuotientIsDivision(number, 16, ln - 1 - i);
      var digit := number / mult % 16;
      s := s + [if digit < 10 then (48 + digit) as char else if digit < 16 then (97 + digit - 10) as char else '?'];
      PowerDown(16, ln - 1 - i);
      mult := mult / 16;
      i := i + 1;
    }
  }
}
