/** How the CPU files write durations, limits and 32-bit counters. */
module Encodings {
  import opened Wrappers
  import opened Decimal

  const NANOSECONDS_PER_MICROSECOND: nat := 1_000

  datatype MaxOr<T> = Max | Value(value: T)

  /** Microseconds as 64-bit nanoseconds, with the product checked. */
  function ParseMicroseconds(s: string): Option<nat> {
    match ParseUnsigned(s, U64_MAX)
    case None => None
    case Some(n) =>
      if n * NANOSECONDS_PER_MICROSECOND <= U64_MAX then Some(n * NANOSECONDS_PER_MICROSECOND) else None
  }

  function ParseNonZeroMicroseconds(s: string): Option<nat> {
    match ParseMicroseconds(s)
    case None => None
    case Some(time) => if time != 0 then Some(time) else None
  }

  function ParseMaxOrMicroseconds(s: string): Option<MaxOr<nat>> {
    if s == "max" then Some(Max)
    else
      match ParseNonZeroMicroseconds(s)
      case None => None
      case Some(time) => Some(MaxOr.Value(time))
  }

  /** The accepted numbers of microseconds are those up to floor((2^64 - 1) / 1000). */
  lemma ParseMicrosecondsExact(s: string, time: nat)
    ensures ParseMicroseconds(s) == Some(time) <==>
            exists n: nat :: DenotesUnsigned(s, n) && n <= 18_446_744_073_709_551 && time == n * 1_000
  {
    var parsed := ParseUnsigned(s, U64_MAX);
    if parsed.Some? {
      ParseUnsignedExact(s, U64_MAX, parsed.value);
    }
    forall n: nat | DenotesUnsigned(s, n) && n <= 18_446_744_073_709_551 ensures parsed == Some(n) {
      ParseUnsignedExact(s, U64_MAX, n);
    }
  }

  /**
   The kernel's 32-bit bandwidth counters: printed as signed once the sign bit is set,
   read back as the unsigned count with the same bits.
   */
  function ParseBandwidthCount(s: string): Option<nat> {
    if s != [] && s[0] == '-' then
      match ParseI32(s)
      case None => None
      case Some(n) => if n < 0 then Some(n + U32_MAX + 1) else Some(n)
    else
      ParseUnsigned(s, U64_MAX)
  }

  /** `%d` applied to the bits of a 32-bit counter. */
  function PrintSigned32(bits: nat): string
    requires bits <= U32_MAX
  {
    if bits <= I32_MAX then Print(bits) else "-" + Print(U32_MAX + 1 - bits)
  }

  /** All 2^32 counter values survive the signed form. */
  lemma BandwidthCountRoundTrip(bits: nat)
    requires bits <= 4_294_967_295
    ensures ParseBandwidthCount(PrintSigned32(bits)) == Some(bits)
  {
    if bits <= I32_MAX {
      ParsePrint(bits, U64_MAX);
      assert IsDigit(Print(bits)[0]);
    } else {
      var text := PrintSigned32(bits);
      assert text[1..] == Print(U32_MAX + 1 - bits);
      PrintValue(U32_MAX + 1 - bits);
      AccumulateExact(0, text[1..], I32_MAX + 1);
    }
  }

  /** Accepted: a minus sign before a numeral up to 2^31, or an unsigned 64-bit token. */
  lemma BandwidthCountExact(s: string, count: nat)
    ensures ParseBandwidthCount(s) == Some(count) <==>
            || (DenotesUnsigned(s, count) && count <= 18_446_744_073_709_551_615)
            || (&& s != [] && s[0] == '-' && IsNumeral(s[1..]) && Decimal.Value(s[1..]) <= 2_147_483_648
                && count == if Decimal.Value(s[1..]) == 0 then 0 else 4_294_967_296 - Decimal.Value(s[1..]))
  {
    if s != [] && s[0] == '-' {
      ParseI32Exact(s, if |s| > 1 && AllDigits(s[1..]) then -(Decimal.Value(s[1..]) as int) else 0);
      var parsed := ParseI32(s);
      if parsed.Some? {
        ParseI32Exact(s, parsed.value);
      }
    } else {
      ParseUnsignedExact(s, U64_MAX, count);
    }
  }
}
