/** Balanced base-5 ("SNAFU") numbers: digits '2', '1', '0', '-', '=' worth
    2, 1, 0, -1, -2, most significant digit first. */
module Snafu {
  import opened Common

  predicate IsSnafuDigit(c: char)
  {
    c == '2' || c == '1' || c == '0' || c == '-' || c == '='
  }

  predicate IsSnafu(s: string)
  {
    forall i :: 0 <= i < |s| ==> IsSnafuDigit(s[i])
  }

  /** The value of one digit; any other character makes the source panic. */
  function DigitValue(c: char): (v: int)
    requires IsSnafuDigit(c)
    ensures -2 <= v <= 2
    ensures v == 2 <==> c == '2'
    ensures v == 1 <==> c == '1'
    ensures v == 0 <==> c == '0'
    ensures v == -1 <==> c == '-'
    ensures v == -2 <==> c == '='
  {
    match c
    case '2' => 2
    case '1' => 1
    case '0' => 0
    case '-' => -1
    case '=' => -2
  }

  function Pow5(k: nat): (p: nat)
    ensures p >= 1
  {
    if k == 0 then 1 else 5 * Pow5(k - 1)
  }

  /** The value of a SNAFU string, read as a base-5 numeral (Horner form). */
  function Decode(s: string): int
    requires IsSnafu(s)
  {
    if |s| == 0 then 0 else Decode(s[..|s| - 1]) * 5 + DigitValue(s[|s| - 1])
  }

  /** A leading digit contributes its value times 5 to the number of digits
      after it. */
  lemma {:induction false} DecodePrepend(c: char, t: string)
    requires IsSnafuDigit(c) && IsSnafu(t)
    ensures IsSnafu([c] + t)
    ensures Decode([c] + t) == DigitValue(c) * Pow5(|t|) + Decode(t)
    decreases |t|
  {
    var s := [c] + t;
    if |t| > 0 {
      assert s[..|s| - 1] == [c] + t[..|t| - 1];
      DecodePrepend(c, t[..|t| - 1]);
      calc {
        Decode(s);
        Decode([c] + t[..|t| - 1]) * 5 + DigitValue(t[|t| - 1]);
        (DigitValue(c) * Pow5(|t| - 1) + Decode(t[..|t| - 1])) * 5 + DigitValue(t[|t| - 1]);
        DigitValue(c) * (Pow5(|t| - 1) * 5) + (Decode(t[..|t| - 1]) * 5 + DigitValue(t[|t| - 1]));
      }
    }
  }

  /** `snafu_to_decimal`: the digits are visited right to left, the one at
      reversed position `index` weighing 5^index. */
  method SnafuToDecimal(snafu: string) returns (number: int)
    requires IsSnafu(snafu)
    ensures number == Decode(snafu)
  {
    number := 0;
    var index := 0;
    while index < |snafu|
      invariant 0 <= index <= |snafu|
      invariant number == Decode(snafu[|snafu| - index..])
    {
      var digit := snafu[|snafu| - 1 - index];
      DecodePrepend(digit, snafu[|snafu| - index..]);
      assert [digit] + snafu[|snafu| - index..] == snafu[|snafu| - 1 - index..];
      number := number + Pow5(index) * DigitValue(digit);
      index := index + 1;
    }
    assert snafu[0..] == snafu;
  }

  /** The digit emitted for a remainder, and the carry added before the
      division by 5. */
  function EncodeDigit(remainder: int): (r: (char, int))
    requires 0 <= remainder < 5
    ensures IsSnafuDigit(r.0)
    ensures DigitValue(r.0) == if remainder < 3 then remainder else remainder - 5
    ensures remainder < 3 ==> r.1 == 0
    ensures remainder == 3 ==> r == ('=', 2)
    ensures remainder == 4 ==> r == ('-', 1)
  {
    match remainder
    case 0 => ('0', 0)
    case 1 => ('1', 0)
    case 2 => ('2', 0)
    case 3 => ('=', 2)
    case 4 => ('-', 1)
  }

  /** `decimal_to_snafu`, written as the recursion its loop unrolls. */
  function Encode(n: int): (s: string)
    ensures IsSnafu(s)
    ensures n <= 0 ==> s == ""
    ensures n >= 1 ==> |s| > 0 && (s[0] == '1' || s[0] == '2')
    decreases n
  {
    if n <= 0 then ""
    else
      var (ch, carry) := EncodeDigit(n % 5);
      Encode((n + carry) / 5) + [ch]
  }

  /** Encoding then decoding gives back every non-negative number. */
  lemma {:induction false} DecodeEncode(n: int)
    requires n >= 0
    ensures Decode(Encode(n)) == n
    decreases n
  {
    if n > 0 {
      var (ch, carry) := EncodeDigit(n % 5);
      var m := (n + carry) / 5;
      DecodeEncode(m);
      var s := Encode(n);
      assert s[..|s| - 1] == Encode(m);
      assert n == 5 * (n / 5) + n % 5;
      assert m == if n % 5 < 3 then n / 5 else n / 5 + 1;
      assert n == 5 * m + DigitValue(ch);
    }
  }

  /** The loop of `decimal_to_snafu`: digits are collected least significant
      first and reversed at the end. */
  method DecimalToSnafu(num: int) returns (snafu: string)
    ensures snafu == Encode(num)
  {
    var digits: string := "";
    var leftover := num;
    while leftover > 0
      invariant Encode(num) == Encode(leftover) + Reverse(digits)
      decreases leftover
    {
      var (ch, carry) := EncodeDigit(leftover % 5);
      EncodeStep(leftover, digits);
      digits := digits + [ch];
      leftover := (leftover + carry) / 5;
    }
    snafu := Reverse(digits);
  }

  /** One pass of the loop moves a digit from the number to the collected
      digits without changing what they encode together. */
  lemma EncodeStep(leftover: int, digits: string)
    requires leftover > 0
    ensures var (ch, carry) := EncodeDigit(leftover % 5);
      Encode(leftover) + Reverse(digits) == Encode((leftover + carry) / 5) + Reverse(digits + [ch])
  {
    var (ch, carry) := EncodeDigit(leftover % 5);
    var m := (leftover + carry) / 5;
    EncodeLast(leftover, m, ch);
    ReverseAppend(digits, ch);
    assert Encode(m) + [ch] + Reverse(digits) == Encode(m) + ([ch] + Reverse(digits));
  }

  function DecodeAll(lines: seq<string>): seq<int>
    requires forall k :: 0 <= k < |lines| ==> IsSnafu(lines[k])
    ensures |DecodeAll(lines)| == |lines|
  {
    if |lines| == 0 then [] else DecodeAll(lines[..|lines| - 1]) + [Decode(lines[|lines| - 1])]
  }

  /** `solve_part1`: the SNAFU encoding of the sum of the decoded lines. */
  function Part1(lines: seq<string>): (r: string)
    requires forall k :: 0 <= k < |lines| ==> IsSnafu(lines[k])
    ensures IsSnafu(r)
    ensures Sum(DecodeAll(lines)) >= 0 ==> Decode(r) == Sum(DecodeAll(lines))
    ensures Sum(DecodeAll(lines)) <= 0 ==> r == []
  {
    if Sum(DecodeAll(lines)) >= 0 then
      DecodeEncode(Sum(DecodeAll(lines)));
      Encode(Sum(DecodeAll(lines)))
    else Encode(Sum(DecodeAll(lines)))
  }

  /** The sample's answer "2=-1=0" is the SNAFU form of 4890. */
  lemma SampleAnswer()
    ensures Decode("2=-1=0") == 4890
    ensures Encode(4890) == "2=-1=0"
  {
    SampleDecodes();
    SampleEncodes();
  }

  lemma SampleDecodes()
    ensures Decode("2=-1=0") == 4890
  {
    assert "2=-1=0"[..5] == "2=-1=";
    assert "2=-1="[..4] == "2=-1";
    assert "2=-1"[..3] == "2=-";
    assert "2=-"[..2] == "2=";
    assert "2="[..1] == "2";
  }

  lemma SampleEncodes()
    ensures Encode(4890) == "2=-1=0"
  {
    SampleLowDigits();
    SampleHighDigits();
  }

  lemma SampleLowDigits()
    ensures Encode(4890) == Encode(39) + "1=0"
  {
    EncodeLast(4890, 978, '0');
    EncodeLast(978, 196, '=');
    EncodeLast(196, 39, '1');
  }

  lemma SampleHighDigits()
    ensures Encode(39) == "2=-"
  {
    EncodeLast(39, 8, '-');
    EncodeLast(8, 2, '=');
    EncodeLast(2, 0, '2');
  }

  /** `n` encodes as the encoding of `m` followed by `ch` when `ch` and the
      carry come from `n`'s remainder and `m` is the carried quotient. */
  lemma EncodeLast(n: int, m: int, ch: char)
    requires n > 0 && EncodeDigit(n % 5).0 == ch && (n + EncodeDigit(n % 5).1) / 5 == m
    ensures Encode(n) == Encode(m) + [ch]
  {
  }
}
