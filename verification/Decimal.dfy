/**
 Decimal integers: the digit loop with checked multiplication and addition behind
 `str::parse` for the fixed-width integers, and the decimal form that `Display` prints.
 */
module Decimal {
  import opened Wrappers
  import opened Text

  const U16_MAX: nat := 0xFFFF
  const U32_MAX: nat := 0xFFFF_FFFF
  const U64_MAX: nat := 0xFFFF_FFFF_FFFF_FFFF
  const I32_MAX: nat := 0x7FFF_FFFF

  predicate IsDigit(c: char) {
    '0' <= c <= '9'
  }

  /** A nonempty run of ASCII digits. */
  predicate IsNumeral(s: string) {
    s != [] && AllDigits(s)
  }

  predicate AllDigits(s: string) {
    forall i :: 0 <= i < |s| ==> IsDigit(s[i])
  }

  function DigitValue(c: char): (d: nat)
    requires IsDigit(c)
    ensures d < 10
  {
    c as nat - '0' as nat
  }

  /** The number that digits denote when they follow the digits of `high`. */
  function Extend(high: nat, s: string): (n: nat)
    requires AllDigits(s)
    ensures n >= high
    decreases |s|
  {
    if s == [] then high else Extend(high * 10 + DigitValue(s[0]), s[1..])
  }

  /** The number a numeral denotes, with no bound on its size. */
  function Value(s: string): nat
    requires AllDigits(s)
  {
    Extend(0, s)
  }

  lemma {:induction false} ExtendConcat(high: nat, a: string, b: string)
    requires AllDigits(a) && AllDigits(b) && AllDigits(a + b)
    ensures Extend(high, a + b) == Extend(Extend(high, a), b)
    decreases |a|
  {
    if a == [] {
      assert a + b == b;
    } else {
      assert (a + b)[0] == a[0] && (a + b)[1..] == a[1..] + b;
      ExtendConcat(high * 10 + DigitValue(a[0]), a[1..], b);
    }
  }

  // ---------- parsing ----------

  /** The digit loop: multiply by ten and add, giving up as soon as `max` is exceeded. */
  function Accumulate(total: nat, s: string, max: nat): (r: Option<nat>)
    requires total <= max
    ensures r.Some? ==> r.value <= max
    decreases |s|
  {
    if s == [] then Some(total)
    else if !IsDigit(s[0]) then None
    else if total * 10 > max then None
    else if total * 10 + DigitValue(s[0]) > max then None
    else Accumulate(total * 10 + DigitValue(s[0]), s[1..], max)
  }

  lemma {:induction false} AccumulateExact(total: nat, s: string, max: nat)
    requires total <= max
    ensures Accumulate(total, s, max) ==
            if AllDigits(s) && Extend(total, s) <= max then Some(Extend(total, s)) else None
    decreases |s|
  {
    if s != [] {
      assert s == [s[0]] + s[1..];
      if IsDigit(s[0]) {
        var next := total * 10 + DigitValue(s[0]);
        assert AllDigits(s) <==> AllDigits(s[1..]);
        if next <= max {
          AccumulateExact(next, s[1..], max);
        } else if AllDigits(s) {
          assert Extend(total, s) == Extend(next, s[1..]) >= next;
        }
      }
    }
  }

  /** The digits of an unsigned token: one leading plus sign is allowed. */
  function Unsigned(s: string): string {
    if s != [] && s[0] == '+' then s[1..] else s
  }

  /** `str::parse` for an unsigned integer type whose largest value is `max`. */
  function ParseUnsigned(s: string, max: nat): Option<nat> {
    if Unsigned(s) == [] then None else Accumulate(0, Unsigned(s), max)
  }

  /** Text of an unsigned number that some unsigned type is wide enough to hold. */
  predicate DenotesUnsigned(s: string, n: nat) {
    || (IsNumeral(s) && Value(s) == n)
    || (s != [] && s[0] == '+' && IsNumeral(s[1..]) && Value(s[1..]) == n)
  }

  /**
   The checked loop accepts exactly the numerals, with any number of leading zeros and
   one optional plus sign, whose unbounded value fits, and returns that value.
   */
  lemma ParseUnsignedExact(s: string, max: nat, n: nat)
    ensures ParseUnsigned(s, max) == Some(n) <==> DenotesUnsigned(s, n) && n <= max
  {
    AccumulateExact(0, Unsigned(s), max);
  }

  /** `str::parse::<i32>`: as for unsigned types, but a minus sign reaches -2^31. */
  function ParseI32(s: string): (r: Option<int>)
    ensures r.Some? ==> -0x8000_0000 <= r.value <= I32_MAX
  {
    if s != [] && s[0] == '-' then
      if |s| == 1 then None
      else
        var magnitude := Accumulate(0, s[1..], I32_MAX + 1);
        if magnitude.None? then None else Some(-(magnitude.value as int))
    else
      var n := ParseUnsigned(s, I32_MAX);
      if n.None? then None else Some(n.value)
  }

  /** Accepted by the signed type: what the unsigned type accepts up to 2^31 - 1, and down to -2^31. */
  lemma ParseI32Exact(s: string, n: int)
    ensures ParseI32(s) == Some(n) <==>
            || (0 <= n <= 2_147_483_647 && DenotesUnsigned(s, n))
            || (s != [] && s[0] == '-' && IsNumeral(s[1..]) && Value(s[1..]) <= 2_147_483_648 && n == -(Value(s[1..]) as int))
  {
    if s != [] && s[0] == '-' {
      AccumulateExact(0, s[1..], I32_MAX + 1);
    } else if n >= 0 {
      ParseUnsignedExact(s, I32_MAX, n);
    }
  }

  // ---------- printing ----------

  function DigitChar(d: nat): (c: char)
    requires d < 10
    ensures IsDigit(c) && DigitValue(c) == d
  {
    '0' + d as char
  }

  /** The decimal form without leading zeros. */
  function Print(n: nat): (s: string)
    ensures IsNumeral(s)
  {
    if n < 10 then [DigitChar(n)]
    else
      Print(n / 10) + [DigitChar(n % 10)]
  }

  lemma {:induction false} PrintValue(n: nat)
    ensures Value(Print(n)) == n
  {
    if n < 10 {
      assert Extend(0, Print(n)) == Extend(n, Print(n)[1..]);
    } else {
      PrintValue(n / 10);
      var last := [DigitChar(n % 10)];
      ExtendConcat(0, Print(n / 10), last);
      assert Print(n) == Print(n / 10) + last;
      assert Extend(n / 10, last) == Extend(n / 10 * 10 + n % 10, last[1..]) == n;
    }
  }

  /** Printing and parsing back is the identity on every value the type can hold. */
  lemma ParsePrint(n: nat, max: nat)
    requires n <= max
    ensures ParseUnsigned(Print(n), max) == Some(n)
    ensures DenotesUnsigned(Print(n), n)
  {
    PrintValue(n);
    assert IsDigit(Print(n)[0]);
    ParseUnsignedExact(Print(n), max, n);
  }

  /** Numerals hold none of the characters that the formats use as separators. */
  lemma NumeralIsPlain(s: string)
    requires IsNumeral(s)
    ensures IsTrimmed(s) && IsWord(s)
    ensures forall c | !IsDigit(c) :: !Contains(s, c)
    ensures Unsigned(s) == s
  {
    assert IsDigit(s[0]) && IsDigit(s[|s| - 1]);
    forall i | 0 <= i < |s| ensures !IsAsciiWhitespace(s[i]) {
      assert IsDigit(s[i]);
    }
  }

  /** With a plus sign in front, they still hold no other character that is not a digit. */
  lemma UnsignedIsPlain(s: string)
    requires IsNumeral(Unsigned(s))
    ensures IsWord(s)
    ensures forall c | !IsDigit(c) && c != '+' :: !Contains(s, c)
  {
    forall i | 0 <= i < |s| ensures s[i] == '+' || IsDigit(s[i]) {
      assert s[0] == '+' && i > 0 ==> s[i] == Unsigned(s)[i - 1];
    }
  }
}
