/** Unsigned decimal numbers, as `format!` writes them and `str::parse` reads them. */
module Decimal {
  import opened Wrappers
  import opened Bytes

  const USIZE_MAX: nat := 0xFFFF_FFFF_FFFF_FFFF

  function Digit(d: nat): (c: byte)
    requires d < 10
    ensures IsDigit(c)
  {
    ('0' as int + d) as char
  }

  function Digits(n: nat): (s: bytes)
    ensures s != [] && forall i | 0 <= i < |s| :: IsDigit(s[i])
  {
    if n < 10 then [Digit(n)] else Digits(n / 10) + [Digit(n % 10)]
  }

  predicate AllDigits(s: string) {
    forall i | 0 <= i < |s| :: IsDigit(s[i])
  }

  function Number(s: string): nat
    requires AllDigits(s)
  {
    if s == [] then 0 else 10 * Number(s[..|s| - 1]) + (s[|s| - 1] as int - '0' as int)
  }

  /** `str::parse` for an unsigned type: one optional plus sign, then digits that fit. */
  function Parsed(s: string, max: nat): Option<nat> {
    var digits := if s != [] && s[0] == '+' then s[1..] else s;
    if digits != [] && AllDigits(digits) && Number(digits) <= max then Some(Number(digits)) else None
  }

  lemma {:induction false} NumberDigits(n: nat)
    ensures Number(Digits(n)) == n
  {
    if n >= 10 {
      var s := Digits(n);
      assert s[..|s| - 1] == Digits(n / 10);
      NumberDigits(n / 10);
    }
  }

  lemma ParsedDigits(n: nat, max: nat)
    ensures Parsed(Digits(n), max) == if n <= max then Some(n) else None
  {
    NumberDigits(n);
    assert IsDigit(Digits(n)[0]);
  }

  function Zeros(n: nat): (s: bytes)
    ensures |s| == n && forall i | 0 <= i < |s| :: s[i] == '0'
  {
    if n == 0 then [] else ['0'] + Zeros(n - 1)
  }

  /** `{:0width}` */
  function Padded(n: nat, width: nat): (s: bytes)
    ensures AllDigits(s)
  {
    var s := Digits(n);
    if |s| >= width then s else Zeros(width - |s|) + s
  }

  function Power10(width: nat): nat {
    if width == 0 then 1 else 10 * Power10(width - 1)
  }

  lemma {:induction false} DigitsLength(n: nat, width: nat)
    requires 0 < width && n < Power10(width)
    ensures |Digits(n)| <= width
  {
    if n >= 10 {
      assert n / 10 < Power10(width - 1);
      DigitsLength(n / 10, width - 1);
    }
  }

  lemma {:induction false} NumberZeros(k: nat, s: bytes)
    requires AllDigits(s)
    ensures AllDigits(Zeros(k) + s) && Number(Zeros(k) + s) == Number(s)
    decreases k + |s|
  {
    var t := Zeros(k) + s;
    if s != [] {
      assert t[..|t| - 1] == Zeros(k) + s[..|s| - 1];
      NumberZeros(k, s[..|s| - 1]);
    } else if k > 0 {
      ZerosEnd(k);
      assert t[..|t| - 1] == Zeros(k - 1) + [];
      NumberZeros(k - 1, []);
    }
  }

  lemma {:induction false} ZerosEnd(k: nat)
    requires k > 0
    ensures Zeros(k)[..k - 1] == Zeros(k - 1)
  {
  }

  /** Every digit string is a number as printed, with zeros in front. */
  lemma {:induction false} DigitsCanonical(s: bytes) returns (k: nat)
    requires s != [] && AllDigits(s)
    ensures s == Zeros(k) + Digits(Number(s))
  {
    var front, last := s[..|s| - 1], s[|s| - 1];
    var d := last as int - '0' as int;
    assert s == front + [last] && Digit(d) == last;
    if front == [] {
      k := 0;
      assert Number(s) == d;
      assert [] + [Digit(d)] == s;
    } else {
      k := DigitsCanonical(front);
      if Number(front) == 0 {
        ZerosMore(k);
        k := k + 1;
        assert Number(s) == d;
      } else {
        assert Number(s) / 10 == Number(front) && Number(s) % 10 == d;
        assert Zeros(k) + (Digits(Number(front)) + [Digit(d)]) == s;
      }
    }
  }

  lemma {:induction false} ZerosMore(k: nat)
    ensures Zeros(k) + Digits(0) == Zeros(k + 1)
  {
    if k == 0 {
    } else {
      ZerosMore(k - 1);
    }
  }

  /** The texts of a number: an optional plus sign, any zeros, and the number as printed. */
  ghost predicate Spells(s: bytes, n: nat) {
    exists k: nat :: s == Zeros(k) + Digits(n) || s == ['+'] + (Zeros(k) + Digits(n))
  }

  lemma SpellingParses(k: nat, n: nat, max: nat)
    ensures var digits := Zeros(k) + Digits(n);
      Parsed(digits, max) == Parsed(['+'] + digits, max) == if n <= max then Some(n) else None
  {
    var digits := Zeros(k) + Digits(n);
    NumberDigits(n);
    NumberZeros(k, Digits(n));
    assert IsDigit(digits[0]);
    assert (['+'] + digits)[1..] == digits;
    hide Zeros, Digits, Number, AllDigits;
  }

  /** A number is parsed exactly from its texts, if it fits. */
  lemma ParsedExactly(s: bytes, max: nat, n: nat)
    ensures Parsed(s, max) == Some(n) <==> n <= max && Spells(s, n)
  {
    if Parsed(s, max) == Some(n) {
      var digits := if s[0] == '+' then s[1..] else s;
      var k := DigitsCanonical(digits);
      assert s[0] == '+' ==> s == ['+'] + digits;
    }
    hide Parsed, Zeros, Digits;
    if Spells(s, n) {
      var k: nat :| s == Zeros(k) + Digits(n) || s == ['+'] + (Zeros(k) + Digits(n));
      SpellingParses(k, n, max);
    }
  }

  /** A padded number has its width and reads back. */
  lemma PaddedReads(n: nat, width: nat)
    requires 0 < width && n < Power10(width)
    ensures |Padded(n, width)| == width && Number(Padded(n, width)) == n
  {
    hide Digits, Number, Zeros, Power10;
    DigitsLength(n, width);
    NumberDigits(n);
    var s := Digits(n);
    if |s| < width {
      NumberZeros(width - |s|, s);
      assert Padded(n, width) == Zeros(width - |s|) + s;
    }
  }
}
