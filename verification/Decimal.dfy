/** Decimal numbers as the formatter prints them and `atoi` reads them. */
module Decimal {
  import opened CText

  // The two sizes an unsigned long comes in.
  const ULONG_MAX_32: nat := 0xFFFF_FFFF
  const ULONG_MAX_64: nat := 0xFFFF_FFFF_FFFF_FFFF

  predicate IsDigit(c: char) {
    '0' <= c <= '9'
  }

  function Digit(n: nat): (c: char)
    requires n < 10
    ensures IsDigit(c) && c as int - '0' as int == n
  {
    ('0' as int + n) as char
  }

  /** The digits of `n`, without leading zeros. */
  function Natural(n: nat): (s: string)
    ensures s != "" && forall i :: 0 <= i < |s| ==> IsDigit(s[i])
  {
    if n < 10 then [Digit(n)] else Natural(n / 10) + [Digit(n % 10)]
  }

  function Integer(v: int): (s: string)
    ensures s != "" && (IsDigit(s[0]) || s[0] == '-')
    ensures forall c :: c in s ==> IsDigit(c) || c == '-'
  {
    if v >= 0 then Natural(v) else "-" + Natural(-v)
  }

  /** The number that the digits at the start of `s` continue. */
  function ParseNatural(s: string, acc: nat): nat {
    if s == "" || !IsDigit(s[0]) then acc else ParseNatural(s[1..], 10 * acc + (s[0] as int - '0' as int))
  }

  /** White space, a sign, then digits up to the first character that is none. */
  function Atoi(s: string): int {
    var t := Trim(s);
    if t != "" && t[0] == '-' then 0 - ParseNatural(t[1..], 0)
    else if t != "" && t[0] == '+' then ParseNatural(t[1..], 0)
    else ParseNatural(t, 0)
  }

  predicate IsHexDigit(c: char) {
    IsDigit(c) || 'A' <= c <= 'F' || 'a' <= c <= 'f'
  }

  function HexDigit(c: char): (n: nat)
    requires IsHexDigit(c)
    ensures n < 16
  {
    if IsDigit(c) then c as int - '0' as int
    else if 'A' <= c <= 'F' then 10 + c as int - 'A' as int
    else 10 + c as int - 'a' as int
  }

  /** The hexadecimal number that the digits at the start of `s` continue. */
  function ParseHex(s: string, acc: nat): nat {
    if s == "" || !IsHexDigit(s[0]) then acc else ParseHex(s[1..], 16 * acc + HexDigit(s[0]))
  }

  predicate IsInt32(v: int) {
    -0x8000_0000 <= v < 0x8000_0000
  }

  /** The value an int takes from a wider number. */
  function ToInt32(v: int): (w: int)
    ensures IsInt32(w) && (v - w) % 0x1_0000_0000 == 0
  {
    (v + 0x8000_0000) % 0x1_0000_0000 - 0x8000_0000
  }

  predicate HexMark(s: string) {
    |s| > 1 && s[0] == '0' && (s[1] == 'x' || s[1] == 'X')
  }

  /** Hexadecimal behind `0x`, which may be written twice, and decimal otherwise. */
  function ToInteger(s: string): int {
    if HexMark(s) then
      var h := s[2..];
      ToInt32(ParseHex(if HexMark(h) then h[2..] else h, 0))
    else ToInt32(Atoi(s))
  }

  lemma {:induction false} ParseAppend(s: string, n: nat, acc: nat)
    requires n < 10 && forall i :: 0 <= i < |s| ==> IsDigit(s[i])
    ensures ParseNatural(s + [Digit(n)], acc) == 10 * ParseNatural(s, acc) + n
  {
    var t := s + [Digit(n)];
    if s == "" {
      assert t[1..] == "";
    } else {
      assert t[1..] == s[1..] + [Digit(n)];
      ParseAppend(s[1..], n, 10 * acc + (s[0] as int - '0' as int));
    }
  }

  lemma {:induction false} ParseReadsBack(n: nat)
    ensures ParseNatural(Natural(n), 0) == n
  {
    if n < 10 {
      assert Natural(n)[1..] == "";
    } else {
      ParseReadsBack(n / 10);
      ParseAppend(Natural(n / 10), n % 10, 0);
    }
  }

  /** Every int printed is read back, whatever its sign. */
  lemma IntegerReadsBack(v: int)
    requires IsInt32(v)
    ensures ToInteger(Integer(v)) == v
  {
    var s := Integer(v);
    assert |s| > 1 ==> s[1] in s;
    if v >= 0 {
      ParseReadsBack(v);
    } else {
      ParseReadsBack(-v);
      assert s[1..] == Natural(-v);
    }
  }

  /** The digits printed before the one of weight `x`. */
  function Before(n: nat): string {
    if n == 0 then "" else Natural(n)
  }

  lemma DivTwice(value: nat, x: nat)
    requires x > 0
    ensures value / (10 * x) == value / x / 10
  {
    var q, r := value / x, value % x;
    Split(x, q / 10, q % 10);
    QuotientIs(value, 10 * x, q / 10, x * (q % 10) + r);
  }

  lemma Split(x: nat, p: nat, s: nat)
    requires s < 10
    ensures x * (10 * p + s) == 10 * x * p + x * s && x * s + x <= 10 * x
  {
    assert x * s + x == x * (s + 1) <= x * 10;
  }

  lemma QuotientIs(n: nat, d: nat, q: nat, r: nat)
    requires d > 0 && n == d * q + r && r < d
    ensures n / d == q
  {
    NoMultiple(d, q - n / d, n % d - r);
  }

  lemma NoMultiple(d: nat, k: int, r: int)
    requires d > 0 && d * k == r && 0 - d < r < d
    ensures k == 0
  {
  }

  lemma QuotientPositive(n: nat, d: nat)
    requires 0 < d <= n
    ensures n / d > 0
  {
  }

  /**
   The formatter's two loops: find the weight of the leading digit, then print digit by digit. The search stops
   early enough never to overflow, and late enough that no digit is lost.
   */
  method PutUlong(value: nat, ulongMax: nat) returns (s: string)
    requires ulongMax == ULONG_MAX_32 || ulongMax == ULONG_MAX_64
    requires value <= ulongMax
    ensures s == Natural(value)
  {
    var x := FindWeight(value, ulongMax);
    s := PutDigits(value, x);
  }

  predicate PowerOfTen(x: nat)
  {
    x == 1 || (x > 1 && x % 10 == 0 && PowerOfTen(x / 10))
  }

  method FindWeight(value: nat, ulongMax: nat) returns (x: nat)
    requires ulongMax == ULONG_MAX_32 || ulongMax == ULONG_MAX_64
    requires value <= ulongMax
    ensures PowerOfTen(x) && value < 10 * x <= 10 * ulongMax && (x == 1 || x <= value)
  {
    x := 1;
    while x < ulongMax / 10
      invariant PowerOfTen(x) && (x == 1 || x <= value)
    {
      var x2 := x * 10;
      assert x2 <= ulongMax;
      if x2 > value {
        return;
      }
      x := x2;
    }
  }

  /** What is printed before the digit of weight `x`. */
  ghost function Ahead(value: nat, x: nat): string
    requires x > 0
  {
    Before(Quotient(value, 10 * x))
  }

  function Quotient(n: nat, d: nat): nat
    requires d > 0
  {
    n / d
  }

  method PutDigits(value: nat, weight: nat) returns (s: string)
    requires PowerOfTen(weight) && value < 10 * weight && (weight == 1 || weight <= value)
    ensures s == Natural(value)
  {
    hide Ahead;
    var x: nat := weight;
    s := "";
    NothingAhead(value, x);
    while x > 0
      invariant x > 0 ==> PowerOfTen(x) && s == Ahead(value, x) && (x == 1 || x <= value)
      invariant x == 0 ==> s == Natural(value)
    {
      s := PutDigit(value, x, s);
      x := x / 10;
    }
  }

  lemma NothingAhead(value: nat, x: nat)
    requires x > 0 && value < 10 * x
    ensures Ahead(value, x) == ""
  {
    QuotientIs(value, 10 * x, 0, value);
  }

  method PutDigit(value: nat, x: nat, s: string) returns (s': string)
    requires PowerOfTen(x) && s == Ahead(value, x) && (x == 1 || x <= value)
    ensures x == 1 ==> s' == Natural(value)
    ensures x > 1 ==> s' == Ahead(value, x / 10)
  {
    DivTwice(value, x);
    var n := value / x;
    s' := s + [Digit(n % 10)];
    if n >= 10 {
      assert s' == Natural(n);
    } else {
      assert s == "" && s' == [Digit(n)];
    }
    if x > 1 {
      QuotientPositive(value, x);
      assert 10 * (x / 10) == x;
    }
  }

  /** The formatter's `%d`. */
  method PutInt(v: int, ulongMax: nat) returns (s: string)
    requires ulongMax == ULONG_MAX_32 || ulongMax == ULONG_MAX_64
    requires IsInt32(v)
    ensures s == Integer(v)
  {
    if v >= 0 {
      s := PutUlong(v, ulongMax);
    } else {
      s := PutUlong(-v, ulongMax);
      s := "-" + s;
    }
  }

  // How much the formatter's buffer grows at a time.
  const STR_INC: nat := 64

  /** The size the buffer can reach: whole chunks up to `max`, but never less than one. */
  function Capacity(max: nat): nat {
    if max < STR_INC then STR_INC else max - max % STR_INC
  }

  /** Characters go into a buffer that grows up to its capacity; what does not fit beside the terminator is dropped. */
  method PutChars(text: string, max: nat) returns (s: string)
    ensures s == if |text| < Capacity(max) then text else text[..Capacity(max) - 1]
  {
    var size := 0;
    s := "";
    for i := 0 to |text|
      invariant size % STR_INC == 0 && size <= Capacity(max) && |s| <= (if size == 0 then 0 else size - 1)
      invariant |s| <= i && s == text[..|s|] && (|s| < i ==> |s| == Capacity(max) - 1)
    {
      if |s| >= size - 1 {
        size := size + STR_INC;
        if size > max && size > STR_INC {
          size := size - STR_INC;
          continue;
        }
      }
      s := s + [text[i]];
    }
  }
}
