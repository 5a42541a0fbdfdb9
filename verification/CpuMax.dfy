/** `cpu.max`: the CPU bandwidth limit. */
module CpuMax {
  import opened Wrappers
  import opened Errors
  import opened Text
  import opened Decimal
  import opened Encodings
  import opened Keyed

  /** Quota and period in nanoseconds. */
  datatype CpuMax = CpuMax(quota: MaxOr<nat>, period: nat) {
    /** The form of `Time` the parser can have produced: nonzero whole microseconds. */
    predicate IsValid() {
      && IsWholeMicroseconds(period)
      && (quota.Value? ==> IsWholeMicroseconds(quota.value))
    }

    /** Quota over period, both read back in microseconds; rationals instead of `f64`. */
    function CpuCount(): MaxOr<real>
      requires period >= NANOSECONDS_PER_MICROSECOND
    {
      match quota
      case Max => Max
      case Value(time) =>
        MaxOr.Value((time / NANOSECONDS_PER_MICROSECOND) as real / (period / NANOSECONDS_PER_MICROSECOND) as real)
    }

    /** The two tokens the kernel writes. */
    function Print(): string {
      PrintQuota(quota) + " " + Decimal.Print(period / NANOSECONDS_PER_MICROSECOND)
    }
  }

  predicate IsWholeMicroseconds(time: nat) {
    0 < time <= U64_MAX && time % NANOSECONDS_PER_MICROSECOND == 0
  }

  function PrintQuota(quota: MaxOr<nat>): string {
    match quota
    case Max => "max"
    case Value(time) => Decimal.Print(time / NANOSECONDS_PER_MICROSECOND)
  }

  function ParseTokens(tokens: seq<string>): Result<CpuMax, ParseError> {
    if tokens == [] then Err(Missing("quota"))
    else
      match ParseMaxOrMicroseconds(tokens[0])
      case None => Err(Invalid("quota", tokens[0]))
      case Some(quota) =>
        if |tokens| == 1 then Err(Missing("period"))
        else
          match ParseNonZeroMicroseconds(tokens[1])
          case None => Err(Invalid("period", tokens[1]))
          case Some(period) => if |tokens| > 2 then Err(Excess) else Ok(CpuMax(quota, period))
  }

  function Parse(raw: string): Result<CpuMax, ParseError> {
    ParseTokens(Tokens(raw))
  }

  /** The same with the token cursor: a field is interpreted before the next one is looked for. */
  method ParseLimit(contents: string) returns (r: Result<CpuMax, ParseError>)
    ensures r == Parse(contents)
  {
    var parser := new Parser(contents);
    var first :- parser.NextRawField("quota");
    var quota := ParseMaxOrMicroseconds(first);
    if quota.None? {
      return Err(Invalid("quota", first));
    }
    var second :- parser.NextRawField("period");
    var period := ParseNonZeroMicroseconds(second);
    if period.None? {
      return Err(Invalid("period", second));
    }
    var _ :- parser.Finish();
    r := Ok(CpuMax(quota.value, period.value));
  }

  /** A token that the two duration fields accept, as the number of microseconds in it. */
  predicate IsDuration(token: string, micros: nat) {
    DenotesUnsigned(token, micros) && 1 <= micros <= 18_446_744_073_709_551
  }

  lemma DurationExact(token: string, time: nat)
    ensures ParseNonZeroMicroseconds(token) == Some(time) <==>
            time % NANOSECONDS_PER_MICROSECOND == 0 && IsDuration(token, time / NANOSECONDS_PER_MICROSECOND)
  {
    ParseMicrosecondsExact(token, time);
  }

  /**
   The file is accepted exactly when it is two tokens, a quota or `max` and a period, each
   number between 1 and floor((2^64 - 1) / 1000); the stored times divide back exactly.
   */
  lemma ParseExact(raw: string, limit: CpuMax)
    ensures Parse(raw) == Ok(limit) <==>
            var tokens := Tokens(raw);
            && |tokens| == 2
            && limit.IsValid()
            && (limit.quota == Max <==> tokens[0] == "max")
            && (limit.quota.Value? ==> IsDuration(tokens[0], limit.quota.value / 1_000))
            && IsDuration(tokens[1], limit.period / 1_000)
  {
    var tokens := Tokens(raw);
    if |tokens| >= 2 {
      DurationExact(tokens[1], limit.period);
      if limit.quota.Value? {
        DurationExact(tokens[0], limit.quota.value);
      }
    }
  }

  /** Without a quota the count is unlimited; with one it is the quotient of the two tokens. */
  lemma CpuCountIsTokenQuotient(raw: string, quota: nat, period: nat)
    requires Parse(raw).Ok?
    requires DenotesUnsigned(Tokens(raw)[1], period)
    ensures Parse(raw).value.period >= NANOSECONDS_PER_MICROSECOND && period > 0
    ensures Parse(raw).value.CpuCount() == Max <==> Tokens(raw)[0] == "max"
    ensures DenotesUnsigned(Tokens(raw)[0], quota) ==>
              Parse(raw).value.CpuCount() == MaxOr.Value(quota as real / period as real)
  {
    ParseExact(raw, Parse(raw).value);
  }

  lemma PrintedDuration(time: nat)
    requires IsWholeMicroseconds(time)
    ensures ParseNonZeroMicroseconds(Decimal.Print(time / NANOSECONDS_PER_MICROSECOND)) == Some(time)
    ensures IsWord(Decimal.Print(time / NANOSECONDS_PER_MICROSECOND))
    ensures Decimal.Print(time / NANOSECONDS_PER_MICROSECOND) != "max"
  {
    var micros := time / NANOSECONDS_PER_MICROSECOND;
    ParsePrint(micros, U64_MAX);
    NumeralIsPlain(Decimal.Print(micros));
    DurationExact(Decimal.Print(micros), time);
    assert IsDigit(Decimal.Print(micros)[0]);
  }

  /** Writing a limit in microseconds and parsing it back is the identity. */
  lemma ParsePrintLimit(limit: CpuMax)
    requires limit.IsValid()
    ensures Parse(limit.Print()) == Ok(limit)
  {
    PrintedDuration(limit.period);
    if limit.quota.Value? {
      PrintedDuration(limit.quota.value);
    }
    TokensOfPair(PrintQuota(limit.quota), Decimal.Print(limit.period / NANOSECONDS_PER_MICROSECOND));
  }
}
