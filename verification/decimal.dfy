/**
 Decimal text for integers, as Go's `strconv.Itoa`, `strconv.Atoi` and the
 `%0Nd` verb of `fmt` print and read it on a 64-bit platform.
 */
module Decimal {
  import opened Outcomes

  const MinInt64: int := -0x8000_0000_0000_0000
  const MaxInt64: int := 0x7FFF_FFFF_FFFF_FFFF

  predicate IsDigit(c: char) {
    '0' <= c <= '9'
  }

  predicate AllDigits(s: string) {
    forall i :: 0 <= i < |s| ==> IsDigit(s[i])
  }

  function DigitChar(d: nat): (c: char)
    requires d < 10
    ensures IsDigit(c)
  {
    (48 + d) as char
  }

  function DigitValue(c: char): (d: nat)
    requires IsDigit(c)
    ensures d < 10 && DigitChar(d) == c
  {
    c as int - 48
  }

  /** The shortest decimal spelling of `n`: digits only, no leading zero unless `n` is zero. */
  function DigitsOf(n: nat): (s: string)
    ensures 1 <= |s| && AllDigits(s)
    ensures s[0] != '0' || n == 0
    ensures n < 10 <==> |s| == 1
    decreases n
  {
    if n < 10 then [DigitChar(n)] else DigitsOf(n / 10) + [DigitChar(n % 10)]
  }

  /** The number a string of decimal digits denotes; leading zeros are allowed. */
  function ValueOf(s: string): nat
    requires AllDigits(s)
  {
    if |s| == 0 then 0 else ValueOf(s[..|s| - 1]) * 10 + DigitValue(s[|s| - 1])
  }

  lemma {:induction false} ValueOfDigitsOf(n: nat)
    ensures ValueOf(DigitsOf(n)) == n
  {
    if n >= 10 {
      var s := DigitsOf(n);
      assert s[..|s| - 1] == DigitsOf(n / 10);
      ValueOfDigitsOf(n / 10);
    }
  }

  lemma {:induction false} LeadingNonZeroIsPositive(s: string)
    requires |s| >= 1 && AllDigits(s) && s[0] != '0'
    ensures ValueOf(s) > 0
  {
    if |s| > 1 {
      LeadingNonZeroIsPositive(s[..|s| - 1]);
    }
  }

  /** Reading a canonical digit string and printing the number gives the string back. */
  lemma {:induction false} DigitsOfValueOf(s: string)
    requires |s| >= 1 && AllDigits(s) && (s[0] != '0' || |s| == 1)
    ensures DigitsOf(ValueOf(s)) == s
  {
    if |s| > 1 {
      var p := s[..|s| - 1];
      LeadingNonZeroIsPositive(p);
      DigitsOfValueOf(p);
      var v := ValueOf(s);
      assert v / 10 == ValueOf(p) && v % 10 == DigitValue(s[|s| - 1]);
      assert s == p + [s[|s| - 1]];
    }
  }

  /** `strconv.Itoa`: an optional minus sign followed by the shortest digit string. */
  function Itoa(n: int): (s: string)
    ensures |s| >= 1
  {
    if n < 0 then "-" + DigitsOf(-n) else DigitsOf(n)
  }

  /** An optional sign followed by at least one decimal digit: the only shape `strconv.Atoi` accepts. */
  predicate IsDecimalLiteral(s: string) {
    |s| >= 1 &&
    if s[0] == '+' || s[0] == '-' then |s| >= 2 && AllDigits(s[1..]) else AllDigits(s)
  }

  /** The spelling `strconv.Itoa` produces: no plus sign, no leading zero, no negative zero. */
  predicate IsCanonical(s: string) {
    || (|s| >= 1 && AllDigits(s) && (s[0] != '0' || |s| == 1))
    || (|s| >= 2 && s[0] == '-' && AllDigits(s[1..]) && s[1] != '0')
  }

  /**
   `strconv.Atoi`: an optional sign and one or more decimal digits (leading zeros
   allowed) whose value fits in 64 bits. Any other input is rejected; which of
   Go's two error kinds (syntax or range) is reported is not modelled.
   */
  function Atoi(s: string): (r: Option<int>)
    ensures r.Some? ==> IsDecimalLiteral(s) && MinInt64 <= r.value <= MaxInt64
    ensures !IsDecimalLiteral(s) ==> r == None
  {
    if |s| == 0 then None
    else
      var digits := if s[0] == '+' || s[0] == '-' then s[1..] else s;
      if |digits| == 0 || !AllDigits(digits) then None
      else
        var v: int := if s[0] == '-' then -(ValueOf(digits) as int) else ValueOf(digits);
        if MinInt64 <= v <= MaxInt64 then Some(v) else None
  }

  /** Parsing what `Itoa` prints gives the number back, for every 64-bit integer. */
  lemma AtoiItoa(n: int)
    requires MinInt64 <= n <= MaxInt64
    ensures Atoi(Itoa(n)) == Some(n)
    ensures IsCanonical(Itoa(n))
  {
    if n < 0 {
      AtoiNegative(-n);
    } else {
      AtoiDigits(n);
    }
  }

  lemma AtoiDigits(n: nat)
    requires n <= MaxInt64
    ensures Atoi(DigitsOf(n)) == Some(n)
  {
    var s := DigitsOf(n);
    ValueOfDigitsOf(n);
    assert IsDigit(s[0]);
  }

  lemma AtoiNegative(m: nat)
    requires 0 < m <= -MinInt64
    ensures Atoi("-" + DigitsOf(m)) == Some(-(m as int))
    ensures IsCanonical("-" + DigitsOf(m))
  {
    var d := DigitsOf(m);
    var s := "-" + d;
    assert s[0] == '-' && s[1..] == d;
    ValueOfDigitsOf(m);
  }

  /** Printing what `Atoi` read from a canonical spelling gives the spelling back. */
  lemma ItoaAtoi(s: string)
    requires IsCanonical(s) && Atoi(s).Some?
    ensures Itoa(Atoi(s).value) == s
  {
    if s[0] == '-' {
      var d := s[1..];
      LeadingNonZeroIsPositive(d);
      DigitsOfValueOf(d);
      assert s == "-" + d;
    } else {
      DigitsOfValueOf(s);
    }
  }

  /** `k` ASCII zeros. */
  function Zeros(k: nat): (z: string)
    ensures |z| == k && AllDigits(z)
    ensures forall i :: 0 <= i < k ==> z[i] == '0'
  {
    seq(k, _ => '0')
  }

  /** `fmt`'s `%0Nd` for a non-negative value: the digits, left-padded with zeros to at least `width`. */
  function PadZeros(n: nat, width: nat): (s: string)
    ensures AllDigits(s) && |s| >= width && |s| >= 1
    ensures |DigitsOf(n)| <= width ==> |s| == width
    ensures ValueOf(s) == n
  {
    var d := DigitsOf(n);
    var s := if |d| >= width then d else Zeros(width - |d|) + d;
    ValueOfDigitsOf(n);
    if |d| < width then ZerosDoNotCount(width - |d|, d); s else s
  }

  lemma {:induction false} ZerosDoNotCount(k: nat, s: string)
    requires AllDigits(s)
    ensures ValueOf(Zeros(k) + s) == ValueOf(s)
  {
    if |s| == 0 {
      assert Zeros(k) + s == Zeros(k);
      ZerosAreZero(k);
    } else {
      var p := s[..|s| - 1];
      assert (Zeros(k) + s)[..|Zeros(k) + s| - 1] == Zeros(k) + p;
      ZerosDoNotCount(k, p);
    }
  }

  lemma {:induction false} ZerosAreZero(k: nat)
    ensures ValueOf(Zeros(k)) == 0
  {
    if k > 0 {
      assert Zeros(k)[..k - 1] == Zeros(k - 1);
      ZerosAreZero(k - 1);
    }
  }

  /** Digit counts of small numbers, used to fix the width of padded fields. */
  lemma DigitsOfSmall(n: nat)
    ensures n < 100 ==> |DigitsOf(n)| <= 2
    ensures n < 1000 ==> |DigitsOf(n)| <= 3
  {
    if n >= 10 {
      assert |DigitsOf(n)| == |DigitsOf(n / 10)| + 1;
    }
  }
}
