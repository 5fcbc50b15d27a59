/** Numbers and their digits: what is printed where, and what is read of a text that holds more than digits. */
module NumberLaws {
  import opened CText
  import opened Decimal

  function Ten(i: nat): (t: nat)
    ensures t >= 1
  {
    if i == 0 then 1 else 10 * Ten(i - 1)
  }

  lemma TenthFirst(n: nat, x: nat)
    requires x > 0
    ensures n / 10 / x == n / (10 * x)
  {
    var q, b, a := n / 10 / x, n / 10 % x, n % 10;
    assert n == 10 * (x * q + b) + a;
    assert (10 * x) * q == 10 * (x * q);
    QuotientIs(n, 10 * x, q, 10 * b + a);
  }

  /** The i-th character from the right is the digit of weight 10^i. */
  lemma {:induction false} DigitAt(n: nat, i: nat)
    requires i < |Natural(n)|
    ensures Natural(n)[|Natural(n)| - 1 - i] == Digit(n / Ten(i) % 10)
  {
    if i > 0 {
      DigitAt(n / 10, i - 1);
      TenthFirst(n, Ten(i - 1));
    }
  }

  /** As many digits as the number needs. */
  lemma {:induction false} DigitCount(n: nat)
    ensures n < Ten(|Natural(n)|) && (|Natural(n)| > 1 ==> Ten(|Natural(n)| - 1) <= n)
  {
    if n >= 10 {
      DigitCount(n / 10);
    } else {
      assert Ten(1) == 10 * Ten(0);
    }
  }

  lemma {:induction false} DigitsStop(s: string, tail: string, acc: nat)
    requires tail == "" || !IsDigit(tail[0])
    ensures (forall i :: 0 <= i < |s| ==> IsDigit(s[i])) ==> ParseNatural(s + tail, acc) == ParseNatural(s, acc)
  {
    if s == "" {
      assert s + tail == tail;
    } else {
      assert (s + tail)[1..] == s[1..] + tail;
      DigitsStop(s[1..], tail, if IsDigit(s[0]) then 10 * acc + (s[0] as int - '0' as int) else 0);
    }
  }

  /** Whatever white space stands before and whatever follows the digits, the number read is the one written. */
  lemma AtoiReads(white: string, n: nat, tail: string)
    requires forall i :: 0 <= i < |white| ==> IsSpace(white[i])
    requires tail == "" || !IsDigit(tail[0])
    ensures Atoi(white + (Natural(n) + tail)) == n
    ensures Atoi(white + ("+" + (Natural(n) + tail))) == n
    ensures Atoi(white + ("-" + (Natural(n) + tail))) == 0 - n
  {
    hide Natural, ParseNatural;
    var digits := Natural(n) + tail;
    ParseReadsBack(n);
    DigitsStop(Natural(n), tail, 0);
    TrimmedOff(white, digits);
    TrimmedOff(white, "+" + digits);
    TrimmedOff(white, "-" + digits);
    assert ("+" + digits)[1..] == digits && ("-" + digits)[1..] == digits;
  }

  /** One more hexadecimal digit, before something that is none. */
  lemma {:induction false} HexDigits(s: string, c: char, tail: string, acc: nat)
    requires (forall i :: 0 <= i < |s| ==> IsHexDigit(s[i])) && IsHexDigit(c) && (tail == "" || !IsHexDigit(tail[0]))
    ensures ParseHex(s + [c] + tail, acc) == 16 * ParseHex(s, acc) + HexDigit(c)
  {
    var t := s + [c] + tail;
    if s == "" {
      assert t[1..] == tail;
    } else {
      assert t[1..] == s[1..] + [c] + tail;
      HexDigits(s[1..], c, tail, 16 * acc + HexDigit(s[0]));
    }
  }

  /** The mark may be written in either case, once or twice; what follows it is hexadecimal. */
  lemma HexReads(mark: string, s: string)
    requires mark in {"0x", "0X"} && !HexMark(s)
    ensures ToInteger(mark + s) == ToInt32(ParseHex(s, 0)) && ToInteger(mark + (mark + s)) == ToInt32(ParseHex(s, 0))
  {
    assert (mark + s)[2..] == s && (mark + (mark + s))[2..] == mark + s;
  }

  /** White space is what C calls so: blank, tab, newline, vertical tab, form feed and carriage return. */
  lemma SpaceCodes(c: char)
    ensures IsSpace(c) <==> c as int in {9, 10, 11, 12, 13, 32}
  {
  }
}
