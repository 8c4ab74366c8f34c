/** Numbers as text: itoa and atoi, vga_puthex and the address parser of the shell's free command. */
module Numbers {

  const INT_MAX := 0x7FFF_FFFF
  const INT_MIN := -0x8000_0000

  const ZERO := 0x30
  const MINUS := 0x2D
  const PLUS := 0x2B

  /** Two's complement 32-bit result of an operation on int. */
  function Wrap(x: int): (r: int)
    ensures INT_MIN <= r <= INT_MAX
    ensures INT_MIN <= x <= INT_MAX ==> r == x
    ensures (r - x) % 0x1_0000_0000 == 0
  {
    (x + 0x8000_0000) % 0x1_0000_0000 - 0x8000_0000
  }

  function Abs(x: int): nat
  {
    if x < 0 then -x else x
  }

  /** C division and remainder, truncated toward zero. */
  function Div(x: int, y: int): int
    requires y != 0
  {
    if (x < 0) == (y < 0) then Abs(x) / Abs(y) else -(Abs(x) / Abs(y))
  }

  function Rem(x: int, y: int): int
    requires y != 0
  {
    x - y * Div(x, y)
  }

  /** The quotient is cut toward zero: the remainder is smaller than y and has the sign of x. */
  lemma DivRem(x: int, y: int)
    requires y != 0
    ensures x == y * Div(x, y) + Rem(x, y)
    ensures Abs(Rem(x, y)) < Abs(y)
    ensures x >= 0 ==> Rem(x, y) >= 0
    ensures x <= 0 ==> Rem(x, y) <= 0
  {
    var d: int, q: int := Abs(y), Abs(x) / Abs(y);
    assert Abs(x) == d * q + Abs(x) % d;
    assert d * -q == -(d * q) && -d * q == -(d * q) && -d * -q == d * q;
  }

  /** s backwards. */
  function Backwards(s: seq<int>): (r: seq<int>)
    ensures |r| == |s| && forall i | 0 <= i < |s| :: r[i] == s[|s| - 1 - i]
  {
    seq(|s|, i requires 0 <= i < |s| => s[|s| - 1 - i])
  }

  lemma BackwardsCons(c: int, s: seq<int>)
    ensures Backwards([c] + s) == Backwards(s) + [c]
    ensures Backwards(s + [c]) == [c] + Backwards(s)
  {
  }

  // ---------------------------------------------------------------- itoa

  /** The digit as a character, cut to a byte. */
  function DigitCode(rem: int): (c: int)
    ensures 0 <= c < 0x100
  {
    (if rem > 9 then rem - 10 + 0x61 else rem + ZERO) % 0x100
  }

  /** The bases for which the digit loop ends. */
  predicate UsableBase(base: int)
  {
    base >= 2 || base <= -2
  }

  lemma DivSmaller(x: int, base: int)
    requires x != 0 && UsableBase(base)
    ensures Abs(Div(x, base)) < Abs(x)
    ensures x > 0 && base > 0 ==> Div(x, base) >= 0
    ensures x < 0 && base > 0 ==> Div(x, base) <= 0 && -base < Rem(x, base) <= 0
  {
    QuotientSmaller(Abs(x), Abs(base));
    var q := Abs(x) / Abs(base);
    assert Abs(base) * -q == -(Abs(base) * q);
  }

  /** By 1 and -1 the number never comes nearer to zero, so the digit loop would not end. */
  lemma UnitBaseStays(x: int, base: int)
    requires base == 1 || base == -1
    ensures Abs(Div(x, base)) == Abs(x)
  {
  }

  lemma QuotientSmaller(x: int, y: int)
    requires x > 0 && y >= 2
    ensures 0 <= x / y < x && 0 <= x - y * (x / y) < y
  {
    var q := x / y;
    assert x == y * q + x % y;
    MulAtLeastDouble(y, q);
  }

  lemma MulAtLeastDouble(y: int, q: int)
    requires y >= 2
    ensures q >= 0 ==> y * q >= 2 * q
    ensures q < 0 ==> y * q < 0
  {
    if q >= 0 {
      assert (y - 2) * q >= 0;
    }
  }

  /** The digits as the loop of itoa writes them, the last digit first. */
  function Digits(num: int, base: int): seq<int>
    requires UsableBase(base)
    decreases Abs(num)
  {
    if num == 0 then []
    else
      DivSmaller(num, base);
      [DigitCode(Rem(num, base))] + Digits(Div(num, base), base)
  }

  /** 0123456789abcdefghijklmnopqrstuvwxyz */
  function SmallCode(d: int): int
  {
    if d < 10 then 0x30 + d else 0x61 + (d - 10)
  }

  /** What a text of digits up to z is worth in a base, the last digit first. */
  ghost function Worth(s: seq<int>, base: int): int
  {
    if s == [] then 0
    else (if s[0] < 0x61 then s[0] - 0x30 else s[0] - 0x61 + 10) + base * Worth(s[1..], base)
  }

  /** The digits of a positive number in any base up to 36 are digits or letters below the base, are
      worth the number, and do not start with 0. */
  lemma {:induction false} DigitsWorth(num: int, base: int)
    requires 0 <= num && 2 <= base <= 36
    ensures var s := Digits(num, base);
            && Worth(s, base) == num
            && (forall i | 0 <= i < |s| :: exists d | 0 <= d < base :: s[i] == SmallCode(d))
            && (num > 0 ==> s != [] && s[|s| - 1] != 0x30)
    decreases num
  {
    if num > 0 {
      DivSmaller(num, base);
      DivRem(num, base);
      var d, rest := Rem(num, base), Digits(Div(num, base), base);
      assert 0 <= d < base;
      DigitsWorth(Div(num, base), base);
      var s := Digits(num, base);
      assert s == [SmallCode(d)] + rest && s[1..] == rest;
      assert forall i | 0 < i < |s| :: s[i] == rest[i - 1];
      assert s[0] == SmallCode(d);
      if rest == [] {
        assert Div(num, base) == 0;
      }
    }
  }

  predicate IsNegative(num: int, base: int)
  {
    num < 0 && base == 10
  }

  /** What the loop starts from: the negation of INT_MIN is INT_MIN again. */
  function Magnitude(num: int, base: int): int
  {
    if IsNegative(num, base) then Wrap(-num) else num
  }

  function ItoaText(num: int, base: int): seq<int>
    requires num == 0 || UsableBase(base)
  {
    if num == 0 then [ZERO]
    else Backwards(Digits(Magnitude(num, base), base) + if IsNegative(num, base) then [MINUS] else [])
  }

  method Itoa(num: int, str: array<int>, base: int) returns (len: nat)
    requires num == 0 || UsableBase(base)
    requires INT_MIN <= num <= INT_MAX && |ItoaText(num, base)| < str.Length
    modifies str
    ensures len < str.Length && str[..len] == ItoaText(num, base) && str[len] == 0
  {
    hide Digits, DigitCode, Wrap, Backwards;
    if num == 0 {
      str[0], str[1] := ZERO, 0;
      assert str[..1] == [ZERO];
      return 1;
    }
    var n := num;
    var negative := num < 0 && base == 10;
    if negative {
      n := Wrap(-num);
    }
    var i := WriteDigits(n, str, base);
    if negative {
      str[i] := MINUS;
      i := i + 1;
    }
    ghost var written := Digits(Magnitude(num, base), base) + if negative then [MINUS] else [];
    assert str[..i] == written;
    str[i] := 0;
    assert str[..i] == written;
    ReverseInPlace(str, i);
    assert str[i] == str[i..][0];
    len := i;
  }

  /** The digit loop of itoa. */
  method WriteDigits(num: int, str: array<int>, base: int) returns (i: nat)
    requires UsableBase(base) && |Digits(num, base)| < str.Length
    modifies str
    ensures i == |Digits(num, base)| && str[..i] == Digits(num, base)
  {
    hide Rem, Div;
    var n := num;
    i := 0;
    ghost var digits := Digits(num, base);
    while n != 0
      invariant i + |Digits(n, base)| == |digits|
      invariant str[..i] + Digits(n, base) == digits
      decreases Abs(n)
    {
      DivSmaller(n, base);
      var rem := Rem(n, base);
      ghost var before := str[..i];
      str[i] := (if rem > 9 then (rem - 10) + 0x61 else rem + ZERO) % 0x100;
      assert str[..i + 1] == before + [DigitCode(rem)];
      i := i + 1;
      n := Div(n, base);
    }
  }

  /** The reversing loop of itoa. */
  method ReverseInPlace(str: array<int>, n: nat)
    requires n <= str.Length
    modifies str
    ensures str[..n] == Backwards(old(str[..n])) && str[n..] == old(str[n..])
  {
    var start, end := 0, n - 1;
    while start < end
      invariant 0 <= start && start + end == n - 1 && start <= end + 1
      invariant forall k | 0 <= k < n ::
                  str[k] == if k < start || k > end then old(str[n - 1 - k]) else old(str[k])
      invariant forall k | n <= k < str.Length :: str[k] == old(str[k])
    {
      var temp := str[start];
      str[start] := str[end];
      str[end] := temp;
      start := start + 1;
      end := end - 1;
    }
  }

  // ---------------------------------------------------------------- atoi

  predicate IsDigit(c: int) { ZERO <= c <= ZERO + 9 }
  predicate IsBlank(c: int) { c == 0x20 || c == 0x09 || c == 0x0A }

  /** The digit loop, in 32-bit arithmetic. */
  function DigitLoop(s: seq<int>, result: int): int
  {
    if s == [] || !IsDigit(s[0]) then result
    else DigitLoop(s[1..], Wrap(result * 10 + (s[0] - ZERO)))
  }

  /** No step of the digit loop leaves the range of int. */
  ghost predicate NeverOverflows(s: seq<int>, result: int)
  {
    s == [] || !IsDigit(s[0]) ||
    (result * 10 + (s[0] - ZERO) <= INT_MAX && NeverOverflows(s[1..], result * 10 + (s[0] - ZERO)))
  }

  function SkipBlanks(s: seq<int>): seq<int>
  {
    if s != [] && IsBlank(s[0]) then SkipBlanks(s[1..]) else s
  }

  function AtoiValue(str: seq<int>): int
  {
    var s := SkipBlanks(str);
    if s != [] && s[0] == MINUS then Wrap(-DigitLoop(s[1..], 0))
    else if s != [] && s[0] == PLUS then DigitLoop(s[1..], 0)
    else DigitLoop(s, 0)
  }

  method Atoi(str: seq<int>) returns (r: int)
    ensures r == AtoiValue(str)
  {
    hide Wrap, DigitLoop, SkipBlanks, IsDigit, IsBlank;
    var i := CountBlanks(str);
    var sign := 1;
    if i < |str| && str[i] == MINUS {
      sign := -1;
      i := i + 1;
    } else if i < |str| && str[i] == PLUS {
      i := i + 1;
    }
    var result := ReadDigits(str[i..]);
    r := if sign == -1 then Wrap(-result) else result;
  }

  /** The loop of atoi over leading blanks. */
  method CountBlanks(str: seq<int>) returns (i: nat)
    ensures i <= |str| && str[i..] == SkipBlanks(str)
  {
    hide IsBlank;
    i := 0;
    assert str[0..] == str;
    while i < |str| && IsBlank(str[i])
      invariant i <= |str| && SkipBlanks(str[i..]) == SkipBlanks(str)
    {
      assert str[i..][1..] == str[i + 1..];
      i := i + 1;
    }
  }

  /** The digit loop of atoi. */
  method ReadDigits(str: seq<int>) returns (result: int)
    ensures result == DigitLoop(str, 0)
  {
    hide IsDigit, Wrap;
    var i := 0;
    result := 0;
    assert str[0..] == str;
    while i < |str| && IsDigit(str[i])
      invariant 0 <= i <= |str| && DigitLoop(str[i..], result) == DigitLoop(str, 0)
    {
      assert str[i..][1..] == str[i + 1..];
      result := Wrap(result * 10 + (str[i] - ZERO));
      i := i + 1;
    }
  }

  /** The digits s starts with. */
  function LeadingDigits(s: seq<int>): seq<int>
  {
    if s == [] || !IsDigit(s[0]) then [] else [s[0]] + LeadingDigits(s[1..])
  }

  /** The number written s, after the number value. */
  function Decimal(s: seq<int>, value: int): int
  {
    if s == [] then value else Decimal(s[1..], value * 10 + (s[0] - ZERO))
  }

  lemma WrapShift(x: int, k: int)
    ensures Wrap(x + 0x1_0000_0000 * k) == Wrap(x)
  {
  }

  lemma WrapIsShift(x: int) returns (k: int)
    ensures Wrap(x) == x + 0x1_0000_0000 * k
  {
    k := -((x + 0x8000_0000) / 0x1_0000_0000);
  }

  /** Wrapping on the way or at the end makes no difference. */
  lemma WrapStep(x: int, factor: int, d: int)
    ensures Wrap(Wrap(x) * factor + d) == Wrap(x * factor + d)
  {
    hide Wrap;
    var k := WrapIsShift(x);
    assert (x + 0x1_0000_0000 * k) * factor + d == x * factor + d + 0x1_0000_0000 * (k * factor);
    WrapShift(x * factor + d, k * factor);
  }

  lemma {:induction false} DigitLoopIsDecimal(s: seq<int>, value: int)
    ensures DigitLoop(s, Wrap(value)) == Wrap(Decimal(LeadingDigits(s), value))
    decreases |s|
  {
    hide Wrap, IsDigit;
    if s != [] && IsDigit(s[0]) {
      WrapStep(value, 10, s[0] - ZERO);
      DigitLoopIsDecimal(s[1..], value * 10 + (s[0] - ZERO));
      assert LeadingDigits(s)[1..] == LeadingDigits(s[1..]);
    }
  }

  /** atoi of any text: after blanks and a sign, the value of the digits that follow, however
      many, as a 32-bit integer. */
  lemma AtoiIsDecimal(str: seq<int>)
    ensures var s := SkipBlanks(str);
            var sign := if s != [] && s[0] == MINUS then -1 else 1;
            var rest := if s != [] && (s[0] == MINUS || s[0] == PLUS) then s[1..] else s;
            AtoiValue(str) == Wrap(sign * Decimal(LeadingDigits(rest), 0))
  {
    hide Wrap, IsDigit, DigitLoop, Decimal, LeadingDigits, SkipBlanks;
    var s := SkipBlanks(str);
    var rest := if s != [] && (s[0] == MINUS || s[0] == PLUS) then s[1..] else s;
    DigitLoopIsDecimal(rest, 0);
    WrapStep(Decimal(LeadingDigits(rest), 0), -1, 0);
  }

  ghost predicate AllIn(s: seq<int>, chars: set<int>)
  {
    forall i | 0 <= i < |s| :: s[i] in chars
  }

  /** Spaces, tabs and line ends in front do not matter. */
  lemma {:induction false} BlanksSkipped(blanks: seq<int>, s: seq<int>)
    requires AllIn(blanks, {0x20, 0x09, 0x0A}) && (s == [] || s[0] !in {0x20, 0x09, 0x0A})
    ensures SkipBlanks(blanks + s) == s
  {
    if blanks == [] {
      assert blanks + s == s;
    } else {
      assert (blanks + s)[1..] == blanks[1..] + s;
      BlanksSkipped(blanks[1..], s);
    }
  }

  lemma {:induction false} DigitsLead(digits: seq<int>, rest: seq<int>)
    requires forall i | 0 <= i < |digits| :: 0x30 <= digits[i] <= 0x39
    requires rest == [] || !(0x30 <= rest[0] <= 0x39)
    ensures LeadingDigits(digits + rest) == digits
  {
    if digits == [] {
      assert digits + rest == rest;
    } else {
      assert (digits + rest)[1..] == digits[1..] + rest;
      DigitsLead(digits[1..], rest);
    }
  }

  /** atoi of blanks, an optional sign, digits and anything after them.  With no sign and no digits
      what follows is not a blank or a sign, which would belong to the parts before. */
  lemma AtoiReads(blanks: seq<int>, sign: seq<int>, digits: seq<int>, rest: seq<int>)
    requires AllIn(blanks, {0x20, 0x09, 0x0A}) && sign in {[], [0x2D], [0x2B]}
    requires forall i | 0 <= i < |digits| :: 0x30 <= digits[i] <= 0x39
    requires rest == [] || !(0x30 <= rest[0] <= 0x39)
    requires sign == [] && digits == [] && rest != [] ==> rest[0] !in {0x20, 0x09, 0x0A, 0x2D, 0x2B}
    ensures AtoiValue(blanks + (sign + (digits + rest)))
            == Wrap(if sign == [0x2D] then -Decimal(digits, 0) else Decimal(digits, 0))
  {
    hide Wrap, DigitLoop, LeadingDigits, Decimal, SkipBlanks, AtoiValue;
    var body := digits + rest;
    var s := sign + body;
    if sign == [] {
      assert s == body;
      assert s != [] ==> s[0] == if digits != [] then digits[0] else rest[0];
    } else {
      assert s[0] == sign[0] && s[1..] == body;
    }
    BlanksSkipped(blanks, s);
    DigitsLead(digits, rest);
    AtoiIsDecimal(blanks + s);
  }

  // ---------------------------------------------------------------- atoi after itoa

  ghost predicate AllDigits(s: seq<int>)
  {
    forall i | 0 <= i < |s| :: IsDigit(s[i])
  }

  lemma {:induction false} DigitLoopAppend(s: seq<int>, c: int, result: int)
    requires AllDigits(s) && IsDigit(c)
    ensures DigitLoop(s + [c], result) == Wrap(DigitLoop(s, result) * 10 + (c - ZERO))
    ensures NeverOverflows(s, result) && DigitLoop(s, result) * 10 + (c - ZERO) <= INT_MAX && 0 <= result <= INT_MAX
            ==> NeverOverflows(s + [c], result)
  {
    if s == [] {
      assert (s + [c])[1..] == [];
    } else {
      assert (s + [c])[1..] == s[1..] + [c];
      DigitLoopAppend(s[1..], c, Wrap(result * 10 + (s[0] - ZERO)));
    }
  }

  lemma DigitsOfPositive(m: int)
    requires 0 <= m
    ensures Digits(m, 10) == if m == 0 then [] else [DigitCode(m % 10)] + Digits(m / 10, 10)
    ensures DigitCode(m % 10) == ZERO + m % 10
  {
    hide DigitCode;
    assert DigitCode(m % 10) == ZERO + m % 10 by { SmallDigit(m % 10); }
    if m > 0 {
      assert Div(m, 10) == m / 10 && Rem(m, 10) == m % 10;
    }
  }

  lemma SmallDigit(d: int)
    requires 0 <= d < 10
    ensures DigitCode(d) == ZERO + d
  {
  }

  /** The digits of a positive number, first digit first, read back as the number, without
      overflow on the way. */
  lemma {:induction false} DigitsReadBack(m: int)
    requires 0 <= m <= INT_MAX
    ensures AllDigits(Backwards(Digits(m, 10)))
    ensures DigitLoop(Backwards(Digits(m, 10)), 0) == m
    ensures NeverOverflows(Backwards(Digits(m, 10)), 0)
    decreases m
  {
    hide Digits, DigitCode;
    DigitsOfPositive(m);
    if m > 0 {
      var rest, c := Digits(m / 10, 10), DigitCode(m % 10);
      DigitsReadBack(m / 10);
      BackwardsCons(c, rest);
      DigitLoopAppend(Backwards(rest), c, 0);
    }
  }

  /** The first digit written for a negative number is no digit. */
  lemma {:induction false} NegativeStartsWithNoDigit(m: int)
    requires m < 0
    ensures Digits(m, 10) != [] && var d := Digits(m, 10); ZERO - 9 <= d[|d| - 1] < ZERO
    decreases Abs(m)
  {
    DivSmaller(m, 10);
    var q := Div(m, 10);
    if q < 0 {
      NegativeStartsWithNoDigit(q);
    }
  }

  /** atoi undoes itoa for every int but INT_MIN. */
  lemma AtoiItoaIff(n: int)
    requires INT_MIN <= n <= INT_MAX
    ensures AtoiValue(ItoaText(n, 10)) == n <==> n != INT_MIN
  {
    hide Digits, DigitLoop, Wrap;
    if n == 0 {
      ZeroReadsBack();
    } else if n > 0 {
      PositiveReadsBack(n);
    } else {
      NegativeText(n);
      var d := Digits(Magnitude(n, 10), 10);
      if n == INT_MIN {
        MinReadsAsZero(d);
      } else {
        DigitsReadBack(-n);
      }
    }
  }

  lemma ZeroReadsBack()
    ensures AtoiValue([ZERO]) == 0
  {
    assert [ZERO][1..] == [];
  }

  lemma PositiveReadsBack(n: int)
    requires 0 < n <= INT_MAX
    ensures AtoiValue(ItoaText(n, 10)) == n
  {
    hide Digits, DigitLoop;
    DigitsReadBack(n);
    var d := Digits(n, 10);
    assert d + [] == d;
    SkipNothing(Backwards(d));
  }

  lemma SkipNothing(s: seq<int>)
    requires AllDigits(s)
    ensures SkipBlanks(s) == s && (s != [] ==> s[0] != MINUS && s[0] != PLUS)
  {
  }

  lemma NegativeText(n: int)
    requires INT_MIN <= n < 0
    ensures var d := Digits(Magnitude(n, 10), 10);
            && AtoiValue(ItoaText(n, 10)) == Wrap(-DigitLoop(Backwards(d), 0))
            && (n == INT_MIN ==> Magnitude(n, 10) == INT_MIN)
  {
    hide Digits, DigitLoop;
    var d := Digits(Magnitude(n, 10), 10);
    BackwardsCons(MINUS, d);
    var t := ItoaText(n, 10);
    assert t == [MINUS] + Backwards(d) && t[1..] == Backwards(d);
    assert SkipBlanks(t) == t;
  }

  lemma MinReadsAsZero(d: seq<int>)
    requires d == Digits(INT_MIN, 10)
    ensures Wrap(-DigitLoop(Backwards(d), 0)) == 0
  {
    NegativeStartsWithNoDigit(INT_MIN);
    hide Digits;
    assert Backwards(d)[0] == d[|d| - 1];
  }

  // ---------------------------------------------------------------- hexadecimal

  const LETTER_X := 0x78

  function HexCode(digit: int): int
  {
    if digit < 10 then ZERO + digit else 0x41 + (digit - 10)
  }

  /** The digits as the loop of vga_puthex collects them, the last digit first. */
  function HexDigits(num: nat): seq<int>
  {
    if num == 0 then [] else [HexCode(num % 16)] + HexDigits(num / 16)
  }

  /** What vga_puthex prints. */
  function HexText(num: nat): seq<int>
  {
    [ZERO, LETTER_X] + if num == 0 then [ZERO] else Backwards(HexDigits(num))
  }

  /** The shell's reading of one digit. */
  function HexValue(c: int): int
  {
    if ZERO <= c <= ZERO + 9 then c - ZERO
    else if 0x61 <= c <= 0x66 then c - 0x61 + 10
    else if 0x41 <= c <= 0x46 then c - 0x41 + 10
    else -1
  }

  const CAPITAL_DIGITS := [0x30, 0x31, 0x32, 0x33, 0x34, 0x35, 0x36, 0x37, 0x38, 0x39,
                           0x41, 0x42, 0x43, 0x44, 0x45, 0x46]
  const SMALL_DIGITS := [0x30, 0x31, 0x32, 0x33, 0x34, 0x35, 0x36, 0x37, 0x38, 0x39,
                         0x61, 0x62, 0x63, 0x64, 0x65, 0x66]

  /** A character has the value of its place in 0123456789ABCDEF or in 0123456789abcdef, and no
      other character has one. */
  lemma HexValueIs(c: int, d: int)
    ensures 0 <= d < 16 ==> HexCode(d) == CAPITAL_DIGITS[d]
    ensures 0 <= d < 16 ==> (HexValue(c) == d <==> c == CAPITAL_DIGITS[d] || c == SMALL_DIGITS[d])
    ensures HexValue(c) < 16 && (HexValue(c) < 0 <==> c !in CAPITAL_DIGITS && c !in SMALL_DIGITS)
  {
    assert HexValue(c) >= 0 ==> c == CAPITAL_DIGITS[HexValue(c)] || c == SMALL_DIGITS[HexValue(c)];
  }

  datatype Parsed = Address(value: int) | Invalid

  /** The loop of shell_free: shift left by four in 32 bits, add the digit. */
  function HexLoop(s: seq<int>, addr: int): Parsed
  {
    if s == [] then Address(addr)
    else if HexValue(s[0]) < 0 then Invalid
    else HexLoop(s[1..], addr * 16 % 0x1_0000_0000 + HexValue(s[0]))
  }

  function ParseAddress(s: seq<int>): Parsed
  {
    if |s| >= 2 && s[0] == ZERO && s[1] == LETTER_X then HexLoop(s[2..], 0) else HexLoop(s, 0)
  }

  /** vga_puthex, its output as a sequence. */
  method PutHex(num: int) returns (out: seq<int>)
    requires 0 <= num < 0x1_0000_0000
    ensures out == HexText(num)
  {
    out := [ZERO, LETTER_X];
    if num == 0 {
      return out + [ZERO];
    }
    HexDigitsFit(num, 8);
    var buffer := new int[9];
    var i := CollectHex(num, buffer);
    var digits := Emit(buffer, i);
    out := out + digits;
  }

  /** The digit loop of vga_puthex. */
  method CollectHex(num: nat, buffer: array<int>) returns (i: nat)
    requires |HexDigits(num)| <= buffer.Length
    modifies buffer
    ensures i <= buffer.Length && buffer[..i] == HexDigits(num)
  {
    i := 0;
    var n := num;
    while n > 0
      invariant 0 <= n && i + |HexDigits(n)| == |HexDigits(num)|
      invariant buffer[..i] + HexDigits(n) == HexDigits(num)
    {
      var digit := n % 16;
      ghost var before := buffer[..i];
      buffer[i] := if digit < 10 then ZERO + digit else 0x41 + (digit - 10);
      assert buffer[..i + 1] == before + [HexCode(digit)];
      i := i + 1;
      n := n / 16;
    }
  }

  /** The printing loop of vga_puthex: the digits backwards. */
  method Emit(buffer: array<int>, i: nat) returns (out: seq<int>)
    requires i <= buffer.Length
    ensures out == Backwards(buffer[..i])
  {
    out := [];
    var j := i - 1;
    while j >= 0
      invariant -1 <= j < i && out == Backwards(buffer[..i])[..i - 1 - j]
    {
      out := out + [buffer[j]];
      j := j - 1;
    }
  }

  method ParseHexAddress(s: seq<int>) returns (r: Parsed)
    ensures r == ParseAddress(s)
  {
    var i := 0;
    if |s| >= 2 && s[0] == ZERO && s[1] == LETTER_X {
      i := 2;
    }
    var addr := 0;
    assert s[0..] == s;
    while i < |s|
      invariant 0 <= i <= |s| && HexLoop(s[i..], addr) == ParseAddress(s)
    {
      assert s[i..][1..] == s[i + 1..];
      addr := addr * 16 % 0x1_0000_0000;
      var v := HexValue(s[i]);
      if v < 0 {
        return Invalid;
      }
      addr := addr + v;
      i := i + 1;
    }
    r := Address(addr);
  }

  function Pow16(k: nat): int
  {
    if k == 0 then 1 else 16 * Pow16(k - 1)
  }

  /** A number below 16^k has at most k hexadecimal digits. */
  lemma {:induction false} HexDigitsFit(num: nat, k: nat)
    requires num < Pow16(k)
    ensures |HexDigits(num)| <= k
    decreases k
  {
    if k > 0 {
      HexDigitsFit(num / 16, k - 1);
    }
  }

  lemma {:induction false} HexLoopAppend(s: seq<int>, c: int, addr: int)
    requires HexValue(c) >= 0
    ensures HexLoop(s + [c], addr) ==
            match HexLoop(s, addr)
            case Invalid => Invalid
            case Address(a) => Address(a * 16 % 0x1_0000_0000 + HexValue(c))
  {
    if s == [] {
      assert (s + [c])[1..] == [];
    } else {
      assert (s + [c])[1..] == s[1..] + [c];
      HexLoopAppend(s[1..], c, addr * 16 % 0x1_0000_0000 + HexValue(s[0]));
    }
  }

  lemma EmptyHex()
    ensures HexLoop(Backwards([]), 0) == Address(0)
  {
  }

  lemma HexCodeRead(d: int)
    requires 0 <= d < 16
    ensures HexValue(HexCode(d)) == d
  {
  }

  lemma {:induction false} HexReadsBack(num: nat)
    requires num < 0x1_0000_0000
    ensures HexLoop(Backwards(HexDigits(num)), 0) == Address(num)
    decreases num
  {
    hide HexLoop, HexCode, HexValue, Backwards;
    if num == 0 {
      EmptyHex();
    } else {
      var rest, c := HexDigits(num / 16), HexCode(num % 16);
      HexReadsBack(num / 16);
      HexCodeRead(num % 16);
      BackwardsCons(c, rest);
      HexLoopAppend(Backwards(rest), c, 0);
    }
  }

  /** The shell reads back every 32-bit value from what vga_puthex printed for it. */
  lemma ParsePrinted(num: int)
    requires 0 <= num < 0x1_0000_0000
    ensures ParseAddress(HexText(num)) == Address(num)
    ensures |HexText(num)| <= 10
  {
    hide HexDigits;
    HexReadsBack(num);
    HexDigitsFit(num, 8);
    var t := HexText(num);
    assert t[2..] == if num == 0 then [ZERO] else Backwards(HexDigits(num));
    ZeroHex();
  }

  lemma ZeroHex()
    ensures HexLoop([ZERO], 0) == Address(0)
  {
    assert [ZERO][1..] == [] && HexValue(ZERO) == 0;
    assert HexLoop([], 0) == Address(0);
  }

  /** The value of a hexadecimal numeral, without bounds. */
  function Numeral(s: seq<int>, value: int): int
  {
    if s == [] then value else Numeral(s[1..], value * 16 + HexValue(s[0]))
  }

  /** What the shell reads of any numeral is its value modulo 2^32: bits are lost exactly when
      the value does not fit. */
  lemma {:induction false} ParseIsModulo(s: seq<int>, addr: int, value: int)
    requires forall i | 0 <= i < |s| :: HexValue(s[i]) >= 0
    requires 0 <= addr && addr == value % 0x1_0000_0000
    ensures HexLoop(s, addr) == Address(Numeral(s, value) % 0x1_0000_0000)
  {
    if s != [] {
      ShiftModulo(addr, value, HexValue(s[0]));
      ParseIsModulo(s[1..], addr * 16 % 0x1_0000_0000 + HexValue(s[0]), value * 16 + HexValue(s[0]));
    }
  }

  /** The loop refuses a text exactly if it has a character that is no digit. */
  lemma {:induction false} LoopInvalidIff(s: seq<int>, addr: int)
    ensures HexLoop(s, addr) == Invalid <==> exists i | 0 <= i < |s| :: HexValue(s[i]) < 0
  {
    hide HexValue;
    if s != [] && HexValue(s[0]) >= 0 {
      LoopInvalidIff(s[1..], addr * 16 % 0x1_0000_0000 + HexValue(s[0]));
      assert forall i | 0 < i < |s| :: s[i] == s[1..][i - 1];
    }
  }

  ghost predicate HasPrefix(s: seq<int>)
  {
    |s| >= 2 && s[0] == 0x30 && s[1] == 0x78
  }

  /** What the free command makes of any text, with the prefix 0x or without: refused exactly if
      something other than a digit is left, and otherwise the value modulo 2^32. */
  lemma ParseIs(s: seq<int>)
    ensures var digits := if HasPrefix(s) then s[2..] else s;
            && (ParseAddress(s) == Invalid <==>
                  exists i | 0 <= i < |digits| :: digits[i] !in CAPITAL_DIGITS && digits[i] !in SMALL_DIGITS)
            && (ParseAddress(s) != Invalid ==> ParseAddress(s) == Address(Numeral(digits, 0) % 0x1_0000_0000))
  {
    hide HexLoop, HexValue, Numeral;
    var digits := if HasPrefix(s) then s[2..] else s;
    forall i | 0 <= i < |digits|
      ensures HexValue(digits[i]) < 0 <==> digits[i] !in CAPITAL_DIGITS && digits[i] !in SMALL_DIGITS
    {
      HexValueIs(digits[i], 0);
    }
    LoopInvalidIff(digits, 0);
    if ParseAddress(s) != Invalid {
      ParseIsModulo(digits, 0, 0);
    }
  }

  lemma ShiftModulo(addr: int, value: int, v: int)
    requires addr == value % 0x1_0000_0000 && 0 <= v < 16
    ensures addr * 16 % 0x1_0000_0000 + v == (value * 16 + v) % 0x1_0000_0000
  {
    var q := value / 0x1_0000_0000;
    assert value == 0x1_0000_0000 * q + addr;
    var p := addr * 16 / 0x1_0000_0000;
    var r := addr * 16 % 0x1_0000_0000;
    assert addr * 16 == 0x1_0000_0000 * p + r;
    assert r == 16 * (addr - 0x1000_0000 * p);
    assert value * 16 + v == 0x1_0000_0000 * (16 * q + p) + (r + v);
  }
}
