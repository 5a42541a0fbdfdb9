/** HugeTLB page sizes and their labels: `64KB`, `2MB`, `1GB`, in binary units. */
module PageSize {
  import opened Wrappers
  import opened Errors
  import opened Text
  import opened Decimal

  const KIBIBYTE: nat := 0x400
  const MEBIBYTE: nat := 0x10_0000
  const GIBIBYTE: nat := 0x4000_0000

  function Pow2(exponent: nat): (n: nat)
    ensures n > 0
  {
    if exponent == 0 then 1 else 2 * Pow2(exponent - 1)
  }

  /** `u64::is_power_of_two`: halving reaches one without ever losing a remainder. */
  predicate IsPowerOfTwo(n: nat) {
    n == 1 || (n > 1 && n % 2 == 0 && IsPowerOfTwo(n / 2))
  }

  /** The sizes `PageSize::try_new` accepts: 64-bit powers of two from 1 KiB. */
  predicate IsPageSize(bytes: nat) {
    KIBIBYTE <= bytes <= U64_MAX && IsPowerOfTwo(bytes)
  }

  /** The largest of the three units that is no larger than the size, and its suffix. */
  function UnitOf(bytes: nat): (nat, string) {
    if bytes >= GIBIBYTE then (GIBIBYTE, "GB")
    else if bytes >= MEBIBYTE then (MEBIBYTE, "MB")
    else (KIBIBYTE, "KB")
  }

  function Label(bytes: nat): string {
    var (unit, suffix) := UnitOf(bytes);
    Print(bytes / unit) + suffix
  }

  function SplitUnit(text: string): Option<(string, nat)> {
    match StripSuffix(text, "GB")
    case Some(number) => Some((number, GIBIBYTE))
    case None =>
      match StripSuffix(text, "MB")
      case Some(number) => Some((number, MEBIBYTE))
      case None =>
        match StripSuffix(text, "KB")
        case Some(number) => Some((number, KIBIBYTE))
        case None => None
  }

  function CheckedMul(a: nat, b: nat): Option<nat> {
    if a * b <= U64_MAX then Some(a * b) else None
  }

  function Parse(text: string): (r: Result<nat, ParseError>)
    ensures r.Err? ==> r == Err(Invalid("page_size", text))
  {
    var invalid := Err(Invalid("page_size", text));
    match SplitUnit(text)
    case None => invalid
    case Some((number, unit)) =>
      match ParseUnsigned(number, U64_MAX)
      case None => invalid
      case Some(n) =>
        match CheckedMul(n, unit)
        case None => invalid
        case Some(bytes) =>
          if IsPageSize(bytes) && Label(bytes) == text then Ok(bytes) else invalid
  }

  function FileName(bytes: nat, suffix: string): string {
    "hugetlb." + Label(bytes) + "." + suffix
  }

  // ---------- powers of two ----------

  lemma {:induction false} PowersOfTwo(n: nat)
    ensures IsPowerOfTwo(n) <==> exists exponent: nat :: n == Pow2(exponent)
  {
    if n > 1 {
      PowersOfTwo(n / 2);
      if IsPowerOfTwo(n) {
        var exponent: nat :| n / 2 == Pow2(exponent);
        assert n == Pow2(exponent + 1);
      }
      forall exponent: nat | n == Pow2(exponent) ensures IsPowerOfTwo(n) {
        assert n == 2 * Pow2(exponent - 1) && n / 2 == Pow2(exponent - 1);
      }
    } else {
      assert Pow2(0) == 1;
    }
  }

  lemma {:induction false} Pow2Sum(a: nat, b: nat)
    ensures Pow2(a + b) == Pow2(a) * Pow2(b)
  {
    if b > 0 {
      Pow2Sum(a, b - 1);
      assert Pow2(a + b) == 2 * Pow2(a + (b - 1));
      assert Pow2(a) * Pow2(b) == 2 * (Pow2(a) * Pow2(b - 1));
    }
  }

  lemma Pow2Units()
    ensures Pow2(10) == KIBIBYTE && Pow2(20) == MEBIBYTE && Pow2(30) == GIBIBYTE
  {
    Pow2Sum(10, 10);
    Pow2Sum(20, 10);
  }

  lemma Pow2Values()
    ensures Pow2(10) == KIBIBYTE && Pow2(20) == MEBIBYTE && Pow2(30) == GIBIBYTE
    ensures Pow2(64) == U64_MAX + 1
  {
    Pow2Units();
    Pow2Sum(30, 30);
    Pow2Sum(60, 4);
  }

  lemma {:induction false} Pow2Ascends(a: nat, b: nat)
    ensures a < b <==> Pow2(a) < Pow2(b)
  {
    if a > 0 && b > 0 {
      Pow2Ascends(a - 1, b - 1);
    }
  }

  /** A power of two that is at least as large as another is a multiple of it. */
  lemma {:induction false} LargerPowerIsMultiple(n: nat, unit: nat) returns (k: nat)
    requires IsPowerOfTwo(n) && IsPowerOfTwo(unit) && n >= unit
    ensures n == k * unit
  {
    if unit == 1 {
      k := n;
    } else {
      k := LargerPowerIsMultiple(n / 2, unit / 2);
      assert k * unit == k * (unit / 2) * 2;
    }
  }

  lemma UnitsArePowers()
    ensures IsPowerOfTwo(KIBIBYTE) && IsPowerOfTwo(MEBIBYTE) && IsPowerOfTwo(GIBIBYTE)
  {
    Pow2Values();
    PowersOfTwo(KIBIBYTE);
    PowersOfTwo(MEBIBYTE);
    PowersOfTwo(GIBIBYTE);
  }

  /** The page sizes are the 54 powers of two from 2^10 to 2^63, and nothing else. */
  lemma PageSizesArePowers(bytes: nat)
    ensures IsPageSize(bytes) <==> exists exponent: nat :: 10 <= exponent <= 63 && bytes == Pow2(exponent)
  {
    Pow2Values();
    PowersOfTwo(bytes);
    forall exponent: nat ensures KIBIBYTE <= Pow2(exponent) <= U64_MAX <==> 10 <= exponent <= 63 {
      Pow2Ascends(exponent, 10);
      Pow2Ascends(exponent, 64);
    }
  }

  // ---------- labels ----------

  lemma UnitQuotient(unit: nat, k: nat)
    requires unit == KIBIBYTE || unit == MEBIBYTE || unit == GIBIBYTE
    ensures k * unit / unit == k <= k * unit
  {
    if unit == KIBIBYTE {
      assert k * unit == k * KIBIBYTE;
    } else if unit == MEBIBYTE {
      assert k * unit == k * MEBIBYTE;
    } else {
      assert k * unit == k * GIBIBYTE;
    }
  }

  /** The division by the unit that a label shows is exact. */
  lemma LabelDivisionIsExact(bytes: nat)
    requires IsPageSize(bytes)
    ensures bytes / UnitOf(bytes).0 * UnitOf(bytes).0 == bytes
    ensures bytes / UnitOf(bytes).0 <= bytes
  {
    var unit := UnitOf(bytes).0;
    UnitsArePowers();
    var k := LargerPowerIsMultiple(bytes, unit);
    UnitQuotient(unit, k);
  }

  lemma LabelSplits(bytes: nat)
    ensures SplitUnit(Label(bytes)) == Some((Print(bytes / UnitOf(bytes).0), UnitOf(bytes).0))
  {
    var text, number := Label(bytes), Print(bytes / UnitOf(bytes).0);
    assert text[|number|..] == UnitOf(bytes).1;
    assert text[..|number|] == number;
    assert text[|number|] == UnitOf(bytes).1[0];
    forall rest: string, suffix | suffix in ["GB", "MB", "KB"] && text == rest + suffix
      ensures suffix == UnitOf(bytes).1
    {
      assert text[|text| - 2] == suffix[0];
    }
  }

  /** The label of every page size parses back to it: the checked product never overflows. */
  lemma ParseLabel(bytes: nat)
    requires IsPageSize(bytes)
    ensures Parse(Label(bytes)) == Ok(bytes)
  {
    var (unit, n) := (UnitOf(bytes).0, bytes / UnitOf(bytes).0);
    LabelSplits(bytes);
    LabelDivisionIsExact(bytes);
    ParsePrint(n, U64_MAX);
    ParseParts(Label(bytes), Print(n), n, unit, bytes);
  }

  lemma ParseParts(text: string, number: string, n: nat, unit: nat, bytes: nat)
    requires SplitUnit(text) == Some((number, unit))
    requires ParseUnsigned(number, U64_MAX) == Some(n)
    requires n * unit == bytes && IsPageSize(bytes) && Label(bytes) == text
    ensures Parse(text) == Ok(bytes)
  {
  }

  /** A label is accepted exactly when it is the canonical label of a page size. */
  lemma ParseExact(text: string, bytes: nat)
    ensures Parse(text) == Ok(bytes) <==> IsPageSize(bytes) && Label(bytes) == text
  {
    if IsPageSize(bytes) && Label(bytes) == text {
      ParseLabel(bytes);
    }
  }

  lemma PowerQuotient(exponent: nat, unit: nat)
    requires exponent >= unit && (unit == 10 || unit == 20 || unit == 30)
    ensures Pow2(exponent) / Pow2(unit) == Pow2(exponent - unit)
  {
    Pow2Units();
    Pow2Sum(exponent - unit, unit);
    UnitQuotient(Pow2(unit), Pow2(exponent - unit));
  }

  /** The label of the power of two with this exponent: KB from 2^10, MB from 2^20, GB from 2^30. */
  ghost predicate IsLabelOf(text: string, exponent: nat) {
    || (10 <= exponent < 20 && text == Print(Pow2(exponent - 10)) + "KB")
    || (20 <= exponent < 30 && text == Print(Pow2(exponent - 20)) + "MB")
    || (30 <= exponent <= 63 && text == Print(Pow2(exponent - 30)) + "GB")
  }

  lemma LabelExact(exponent: nat, text: string)
    requires 10 <= exponent <= 63
    ensures Label(Pow2(exponent)) == text <==> IsLabelOf(text, exponent)
  {
    Pow2Units();
    Pow2Ascends(exponent, 20);
    Pow2Ascends(exponent, 30);
    PowerQuotient(exponent, if exponent < 20 then 10 else if exponent < 30 then 20 else 30);
  }

  /** The accepted texts are the labels of the 54 sizes, in their three ranges, and nothing else. */
  lemma ParseCases(text: string, bytes: nat)
    ensures Parse(text) == Ok(bytes) <==> exists exponent: nat :: bytes == Pow2(exponent) && IsLabelOf(text, exponent)
  {
    ParseExact(text, bytes);
    PageSizesArePowers(bytes);
    forall exponent: nat | 10 <= exponent <= 63 && bytes == Pow2(exponent)
      ensures Label(bytes) == text <==> IsLabelOf(text, exponent)
    {
      LabelExact(exponent, text);
    }
  }

  lemma FileNameSplits(bytes: nat, suffix: string)
    ensures SplitOnce(FileName(bytes, suffix)[|"hugetlb."|..], '.') == Some((Label(bytes), suffix))
  {
    LabelHasNoDot(bytes);
    SplitOnceAt(Label(bytes), '.', suffix);
    assert FileName(bytes, suffix)[|"hugetlb."|..] == Label(bytes) + "." + suffix;
  }

  lemma LabelHasNoDot(bytes: nat)
    ensures !Contains(Label(bytes), '.')
  {
    var number := Print(bytes / UnitOf(bytes).0);
    NumeralIsPlain(number);
    forall i | 0 <= i < |Label(bytes)| ensures Label(bytes)[i] != '.' {
      assert Label(bytes)[i] == if i < |number| then number[i] else UnitOf(bytes).1[i - |number|];
    }
  }

  /** Different sizes or different interfaces have different filenames. */
  lemma FileNameIsInjective(bytes: nat, suffix: string, otherBytes: nat, otherSuffix: string)
    requires IsPageSize(bytes) && IsPageSize(otherBytes)
    requires FileName(bytes, suffix) == FileName(otherBytes, otherSuffix)
    ensures bytes == otherBytes && suffix == otherSuffix
  {
    FileNameSplits(bytes, suffix);
    FileNameSplits(otherBytes, otherSuffix);
    ParseLabel(bytes);
    ParseLabel(otherBytes);
  }
}
