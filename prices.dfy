/**
 * The price normaliser of main.py: `convert_price_to_int` keeps the decimal
 * digits of a scraped price text and reads them as one base-10 integer.
 * Only the ASCII digits '0'..'9' are treated as digits.
 */
module Prices {
  import opened Common

  predicate IsDigit(c: char) {
    '0' <= c <= '9'
  }

  predicate AllDigits(s: string) {
    forall i :: 0 <= i < |s| ==> IsDigit(s[i])
  }

  function DigitValue(c: char): (v: nat)
    requires IsDigit(c)
    ensures v < 10
  {
    (c as int) - ('0' as int)
  }

  function DigitChar(v: nat): (c: char)
    requires v < 10
    ensures IsDigit(c) && DigitValue(c) == v
  {
    ('0' as int + v) as char
  }

  function Pow10(k: nat): (p: nat)
    ensures p >= 1
  {
    if k == 0 then 1 else 10 * Pow10(k - 1)
  }

  /** The digit characters of `s`, in their original order. */
  function Digits(s: string): (d: string)
    ensures AllDigits(d)
    ensures |d| <= |s|
  {
    if s == [] then []
    else (if IsDigit(s[0]) then [s[0]] else []) + Digits(s[1..])
  }

  /** `int(d)` on a non-empty digit string: the digits read left to right, each
      step multiplying the value so far by ten. */
  function DecimalValue(d: string): (v: nat)
    requires AllDigits(d)
    ensures v < Pow10(|d|)
  {
    if d == [] then 0
    else 10 * DecimalValue(d[..|d| - 1]) + DigitValue(d[|d| - 1])
  }

  /** An independent reading of a digit string: the sum of each digit times the
      power of ten given by its position from the right. */
  function PlaceValue(d: string): nat
    requires AllDigits(d)
  {
    if d == [] then 0
    else DigitValue(d[0]) * Pow10(|d| - 1) + PlaceValue(d[1..])
  }

  /** CPython's default limit on the number of digits `int()` converts from a
      decimal string (`sys.int_max_str_digits`); main.py does not change it. */
  const MaxStrDigits: nat := 4300

  /** `convert_price_to_int`: None stands for the ValueError that `int()` raises,
      on the empty string when the text holds no digit at all, or when the
      text holds more digits than `int()` converts. */
  function ConvertPriceToInt(s: string): (r: Option<nat>)
    ensures r.None? <==> (forall i :: 0 <= i < |s| ==> !IsDigit(s[i])) || |Digits(s)| > MaxStrDigits
    ensures r.Some? ==> r.value == PlaceValue(Digits(s))
  {
    var d := Digits(s);
    NoDigitsIffEmpty(s);
    if d == [] || |d| > MaxStrDigits then None
    else
      HornerIsPlaceValue(d);
      Some(DecimalValue(d))
  }

  /** `str(n)` for a non-negative integer: its decimal rendering, no leading zero. */
  function DecimalString(n: nat): (s: string)
    ensures AllDigits(s) && |s| >= 1
    ensures |s| > 1 ==> s[0] != '0'
  {
    if n < 10 then [DigitChar(n)] else DecimalString(n / 10) + [DigitChar(n % 10)]
  }

  function Zeros(k: nat): (s: string)
    ensures |s| == k && AllDigits(s)
  {
    if k == 0 then [] else Zeros(k - 1) + ['0']
  }

  lemma {:induction false} DecimalValueOfConcat(a: string, b: string)
    requires AllDigits(a) && AllDigits(b)
    ensures AllDigits(a + b)
    ensures DecimalValue(a + b) == DecimalValue(a) * Pow10(|b|) + DecimalValue(b)
    decreases |b|
  {
    assert AllDigits(a + b) by {
      forall i | 0 <= i < |a + b| ensures IsDigit((a + b)[i]) {
        if i < |a| { assert (a + b)[i] == a[i]; } else { assert (a + b)[i] == b[i - |a|]; }
      }
    }
    if b == [] {
      assert a + b == a;
    } else {
      var b' := b[..|b| - 1];
      var last := b[|b| - 1];
      assert AllDigits(b');
      assert (a + b)[..|a + b| - 1] == a + b';
      assert (a + b)[|a + b| - 1] == last;
      DecimalValueOfConcat(a, b');
      assert Pow10(|b|) == 10 * Pow10(|b'|);
      ShiftOneDigit(DecimalValue(a), Pow10(|b'|), DecimalValue(b'), DigitValue(last));
    }
  }

  lemma ShiftOneDigit(x: int, p: int, y: int, l: int)
    ensures 10 * (x * p + y) + l == x * (10 * p) + (10 * y + l)
  {
  }

  /** Reading digits left to right (as `int` does) agrees with the positional sum. */
  lemma {:induction false} HornerIsPlaceValue(d: string)
    requires AllDigits(d)
    ensures DecimalValue(d) == PlaceValue(d)
    decreases |d|
  {
    if d != [] {
      var rest := d[1..];
      assert AllDigits(rest);
      assert AllDigits([d[0]]);
      assert [d[0]] + rest == d;
      DecimalValueOfConcat([d[0]], rest);
      assert DecimalValue([d[0]]) == DigitValue(d[0]) by {
        assert [d[0]][..0] == [];
      }
      HornerIsPlaceValue(rest);
    }
  }

  lemma {:induction false} DigitsOfConcat(a: string, b: string)
    ensures Digits(a + b) == Digits(a) + Digits(b)
    decreases |a|
  {
    if a == [] {
      assert a + b == b;
    } else {
      var head := if IsDigit(a[0]) then [a[0]] else [];
      assert (a + b)[0] == a[0];
      assert (a + b)[1..] == a[1..] + b;
      assert Digits(a + b) == head + Digits(a[1..] + b);
      DigitsOfConcat(a[1..], b);
      assert head + (Digits(a[1..]) + Digits(b)) == (head + Digits(a[1..])) + Digits(b);
    }
  }

  /** The filter keeps every digit of the text and nothing else. */
  lemma {:induction false} DigitsKeepsEveryDigit(s: string, c: char)
    ensures c in Digits(s) <==> c in s && IsDigit(c)
  {
    if s != [] {
      DigitsKeepsEveryDigit(s[1..], c);
      assert s == [s[0]] + s[1..];
    }
  }

  lemma {:induction false} NoDigitsIffEmpty(s: string)
    ensures Digits(s) == [] <==> forall i :: 0 <= i < |s| ==> !IsDigit(s[i])
  {
    if s != [] {
      NoDigitsIffEmpty(s[1..]);
      assert forall i :: 1 <= i < |s| ==> s[i] == s[1..][i - 1];
    }
  }

  /** Any non-digit character (a space, a currency sign, a minus sign) is ignored,
      wherever it stands in the text. */
  lemma NonDigitIgnored(a: string, c: char, b: string)
    requires !IsDigit(c)
    ensures ConvertPriceToInt(a + [c] + b) == ConvertPriceToInt(a + b)
  {
    DigitsOfConcat(a + [c], b);
    DigitsOfConcat(a, [c]);
    DigitsOfConcat(a, b);
    assert Digits([c]) == [];
    assert Digits(a + [c] + b) == Digits(a + b);
  }

  /** A leading minus sign does not make the result negative: it is dropped. */
  lemma MinusSignDropped(s: string)
    ensures ConvertPriceToInt("-" + s) == ConvertPriceToInt(s)
  {
    NonDigitIgnored([], '-', s);
    assert [] + ['-'] + s == "-" + s;
    assert [] + s == s;
  }

  lemma {:induction false} DecimalStringValue(n: nat)
    ensures DecimalValue(DecimalString(n)) == n
  {
    var s := DecimalString(n);
    if n < 10 {
      assert s[..0] == [];
    } else {
      assert s[..|s| - 1] == DecimalString(n / 10);
      DecimalStringValue(n / 10);
    }
  }

  lemma {:induction false} DigitsOfDigitString(d: string)
    requires AllDigits(d)
    ensures Digits(d) == d
  {
    if d != [] {
      DigitsOfDigitString(d[1..]);
    }
  }

  /** Converting the decimal rendering of any n >= 0 gives back n, as long as
      the rendering is within the digit limit. */
  lemma RenderThenConvert(n: nat)
    ensures ConvertPriceToInt(DecimalString(n)) == if |DecimalString(n)| <= MaxStrDigits then Some(n) else None
  {
    var s := DecimalString(n);
    DigitsOfDigitString(s);
    DecimalStringValue(n);
    HornerIsPlaceValue(s);
  }

  lemma ZerosPrefixValue(k: nat, s: string)
    requires AllDigits(s)
    ensures AllDigits(Zeros(k) + s)
    ensures DecimalValue(Zeros(k) + s) == DecimalValue(s)
  {
    DecimalValueOfConcat(Zeros(k), s);
    ZerosValue(k);
  }

  /** Leading zeros are absorbed: "007" reads as 7. They count towards the
      digit limit all the same. */
  lemma LeadingZerosAbsorbed(k: nat, n: nat)
    ensures ConvertPriceToInt(Zeros(k) + DecimalString(n))
         == if k + |DecimalString(n)| <= MaxStrDigits then Some(n) else None
  {
    var t := Zeros(k) + DecimalString(n);
    ZerosPrefixValue(k, DecimalString(n));
    DigitsOfDigitString(t);
    DecimalStringValue(n);
    HornerIsPlaceValue(t);
  }

  /** A run of k zeros reads as 0 when it has between 1 and 4300 digits;
      past the limit `int()` raises, however small the value. */
  lemma ZerosConvert(k: nat)
    ensures ConvertPriceToInt(Zeros(k)) == if 1 <= k <= MaxStrDigits then Some(0) else None
  {
    DigitsOfDigitString(Zeros(k));
    ZerosValue(k);
    HornerIsPlaceValue(Zeros(k));
  }

  lemma {:induction false} ZerosValue(k: nat)
    ensures DecimalValue(Zeros(k)) == 0
  {
    if k > 0 {
      assert Zeros(k)[..k - 1] == Zeros(k - 1);
      ZerosValue(k - 1);
    }
  }

  /** A price text in the shop's format: "1 234 р." is 1234 roubles. */
  lemma SpacedRoublePrice()
    ensures ConvertPriceToInt("1 234 р.") == Some(1234)
  {
    assert Digits("1 234 р.") == "1234";
    assert DecimalValue("1234") == 1234 by {
      assert "1234"[..3] == "123";
      assert "123"[..2] == "12";
      assert "12"[..1] == "1";
      assert "1"[..0] == "";
    }
    HornerIsPlaceValue("1234");
  }

  /** Texts with no digit have no value: the conversion fails instead of giving 0. */
  lemma NoDigitsNoPrice()
    ensures ConvertPriceToInt("N/A") == None
    ensures ConvertPriceToInt("") == None
    ensures ConvertPriceToInt("р.") == None
  {
  }
}
