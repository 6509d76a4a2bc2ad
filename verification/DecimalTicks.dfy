/**
 Decimal text and integer ticks: the printers and the parsers of the live and testnet runners,
 what exactly each parser accepts, and when printing and parsing undo each other.
 */
module DecimalTicks {
  import opened Machine
  import opened Outcomes

  const I128_MAX := 0x7fff_ffff_ffff_ffff_ffff_ffff_ffff_ffff

  // ---------------------------------------------------------------- digits

  predicate IsDigit(c: char) { '0' <= c <= '9' }

  predicate AllDigits(s: string) { forall i :: 0 <= i < |s| ==> IsDigit(s[i]) }

  function DigitValue(c: char): (d: nat)
    requires IsDigit(c)
    ensures d < 10
  {
    (c - '0') as int
  }

  function DigitChar(d: nat): (c: char)
    requires d < 10
    ensures IsDigit(c) && DigitValue(c) == d
  {
    '0' + d as char
  }

  function NatOf(s: string): nat
    requires AllDigits(s)
  {
    if s == [] then 0 else 10 * NatOf(s[..|s| - 1]) + DigitValue(s[|s| - 1])
  }

  /** The decimal digits of a natural number, without leading zeros. */
  function Digits(n: nat): (s: string)
    ensures s != [] && AllDigits(s)
  {
    if n < 10 then [DigitChar(n)] else Digits(n / 10) + [DigitChar(n % 10)]
  }

  function Zeros(n: nat): (s: string)
    ensures |s| == n && AllDigits(s)
  {
    seq(n, _ => '0')
  }

  /** `{:0width$}`. */
  function PadLeft(s: string, width: nat): string
  {
    if |s| < width then Zeros(width - |s|) + s else s
  }

  function Pow10(k: nat): (p: int)
    ensures p >= 1
  {
    if k == 0 then 1 else 10 * Pow10(k - 1)
  }

  lemma {:induction false} DigitsValue(n: nat)
    ensures NatOf(Digits(n)) == n
  {
    if n >= 10 {
      DigitsValue(n / 10);
      var s := Digits(n / 10);
      assert (s + [DigitChar(n % 10)])[..|s|] == s;
    } else {
      assert [DigitChar(n)][..0] == [];
    }
  }

  lemma NatOfLast(s: string)
    requires s != [] && AllDigits(s)
    ensures AllDigits(s[..|s| - 1]) && IsDigit(s[|s| - 1])
    ensures NatOf(s) == 10 * NatOf(s[..|s| - 1]) + DigitValue(s[|s| - 1])
  {
  }

  lemma Pow10Next(k: nat)
    ensures Pow10(k + 1) == 10 * Pow10(k) && Pow10(0) == 1
  {
  }

  lemma ShiftDigit(a: nat, b: nat, d: nat, p: int)
    ensures 10 * (a * p + b) + d == a * (10 * p) + (10 * b + d)
  {
  }

  lemma {:induction false} ConcatValue(a: string, b: string)
    requires AllDigits(a) && AllDigits(b)
    ensures AllDigits(a + b) && NatOf(a + b) == NatOf(a) * Pow10(|b|) + NatOf(b)
    decreases b
  {
    if b == [] {
      assert a + b == a && Pow10(0) == 1 && NatOf([]) == 0;
    } else {
      hide NatOf, Pow10;
      var n := |b| - 1;
      ConcatValue(a, b[..n]);
      assert (a + b)[..|a + b| - 1] == a + b[..n];
      NatOfLast(a + b);
      NatOfLast(b);
      Pow10Next(n);
      ShiftDigit(NatOf(a), NatOf(b[..n]), DigitValue(b[n]), Pow10(n));
    }
  }

  lemma {:induction false} ZerosValue(n: nat)
    ensures NatOf(Zeros(n)) == 0
  {
    if n > 0 {
      ZerosValue(n - 1);
      assert Zeros(n)[..n - 1] == Zeros(n - 1);
    }
  }

  lemma {:induction false} ValueBound(s: string)
    requires AllDigits(s)
    ensures NatOf(s) < Pow10(|s|)
  {
    if s != [] {
      ValueBound(s[..|s| - 1]);
    }
  }

  /** A number below the k-th power of ten needs at most k digits. */
  lemma {:induction false} DigitsLength(n: nat, k: nat)
    requires n < Pow10(k) && k > 0
    ensures |Digits(n)| <= k
  {
    if n >= 10 {
      assert k > 1;
      assert n / 10 < Pow10(k - 1);
      DigitsLength(n / 10, k - 1);
    }
  }

  lemma PaddedDigits(n: nat, width: nat)
    requires n < Pow10(width) && width > 0
    ensures var s := PadLeft(Digits(n), width);
      |s| == width && AllDigits(s) && NatOf(s) == n
  {
    hide Digits, NatOf, Pow10;
    DigitsLength(n, width);
    DigitsValue(n);
    var s := Digits(n);
    if |s| < width {
      ZerosValue(width - |s|);
      ConcatValue(Zeros(width - |s|), s);
    }
  }

  lemma {:induction false} Pow10Splits(a: nat, b: nat)
    ensures Pow10(a + b) == Pow10(a) * Pow10(b)
  {
    if b > 0 {
      Pow10Splits(a, b - 1);
      assert Pow10(a) * Pow10(b) == 10 * (Pow10(a) * Pow10(b - 1));
    }
  }

  lemma {:induction false} Pow10Grows(a: nat, b: nat)
    requires a <= b
    ensures Pow10(a) <= Pow10(b)
  {
    if a < b {
      Pow10Grows(a, b - 1);
    }
  }

  lemma Pow10Marks()
    ensures Pow10(18) == 1_000_000_000_000_000_000
    ensures Pow10(19) == 10_000_000_000_000_000_000
    ensures Pow10(38) <= I128_MAX < Pow10(39)
  {
    assert Pow10(6) == 1_000_000;
    Pow10Splits(6, 6);
    Pow10Splits(12, 6);
    Pow10Splits(18, 18);
    assert Pow10(36) == 1_000_000_000_000_000_000_000_000_000_000_000_000;
    assert Pow10(2) == 100;
    Pow10Splits(36, 2);
  }

  // ---------------------------------------------------------------- text apart

  /** `split_once('.')`, with an empty fraction when there is no point. */
  function SplitPoint(s: string): (string, string)
  {
    if s == [] then ([], [])
    else if s[0] == '.' then ([], s[1..])
    else
      var rest := SplitPoint(s[1..]);
      ([s[0]] + rest.0, rest.1)
  }

  lemma {:induction false} SplitDigits(a: string, b: string)
    requires AllDigits(a)
    ensures SplitPoint(a + ['.'] + b) == (a, b) && SplitPoint(a) == (a, [])
  {
    if a == [] {
      assert a + ['.'] + b == ['.'] + b;
      assert (['.'] + b)[1..] == b;
    } else {
      SplitDigits(a[1..], b);
      assert (a + ['.'] + b)[1..] == a[1..] + ['.'] + b;
      assert IsDigit(a[0]) && (a + ['.'] + b)[0] == a[0];
      assert [a[0]] + a[1..] == a;
    }
  }

  datatype Numeral = Numeral(negative: bool, whole: string, fraction: string)
  {
    predicate WellFormed()
    {
      whole != [] && AllDigits(whole) && AllDigits(fraction)
    }

    /** The digits beyond a scale are all zero. */
    predicate Fits(scale: nat)
    {
      forall i :: scale <= i < |fraction| ==> fraction[i] == '0'
    }

    /** The fraction in ticks of a scale; digits beyond the scale are not looked at. */
    ghost function Kept(scale: nat): int
      requires WellFormed()
    {
      if |fraction| <= scale then NatOf(fraction) * Pow10(scale - |fraction|) else NatOf(fraction[..scale])
    }

    ghost function Ticks(scale: nat): int
      requires WellFormed()
    {
      var magnitude := NatOf(whole) * Pow10(scale) + Kept(scale);
      if negative then -magnitude else magnitude
    }
  }

  function Read(text: string): Numeral
  {
    var negative := text != [] && text[0] == '-';
    var parts := SplitPoint(if negative then text[1..] else text);
    Numeral(negative, parts.0, parts.1)
  }

  // ---------------------------------------------------------------- parsers

  function Signed(negative: bool, magnitude: int): int { if negative then -magnitude else magnitude }

  function ParseI128(s: string): Option<int>
    requires AllDigits(s)
  {
    if s != [] && NatOf(s) <= I128_MAX then Some(NatOf(s)) else None
  }

  function Checked(x: int): Option<int> { if -I128_MAX - 1 <= x <= I128_MAX then Some(x) else None }

  function ToI64(x: int): Option<I64> { if I64_MIN <= x <= I64_MAX then Some(x) else None }

  /** The strict parser of the live runner. */
  function ParseTicks(text: string, scale: nat): Option<I64>
  {
    var n := Read(text);
    if !n.WellFormed() || |n.fraction| > scale then None
    else if Pow10(scale) > I128_MAX then None
    else
      var whole, fraction := NatOf(n.whole), NatOf(n.fraction);
      Assemble(n.negative, whole, whole * Pow10(scale), fraction, fraction * Pow10(scale - |n.fraction|))
  }

  /** Every step of the assembly is checked for overflow; an empty fraction counts as zero. */
  function Assemble(negative: bool, whole: nat, base: int, fraction: nat, kept: int): Option<I64>
  {
    if whole > I128_MAX || Checked(base).None? then None
    else if fraction > I128_MAX || Checked(kept).None? then None
    else if Checked(base + kept).None? then None
    else ToI64(Signed(negative, base + kept))
  }

  // ---------------------------------------------------------------- what the parsers accept

  lemma SmallScale(scale: nat)
    ensures Pow10(scale) <= I128_MAX <==> scale <= 38
  {
    Pow10Marks();
    hide Pow10;
    if scale <= 38 { Pow10Grows(scale, 38); } else { Pow10Grows(39, scale); }
  }

  /** The strict parser as a relation: syntax, no digit beyond the scale, scale and value in range. */
  ghost function Strict(text: string, scale: nat): Option<I64>
  {
    var n := Read(text);
    if n.WellFormed() && |n.fraction| <= scale && scale <= 38 then ToI64(n.Ticks(scale)) else None
  }

  /** The lenient parser as a relation: zeros beyond the scale are tolerated. */
  ghost function Lenient(text: string, scale: nat): Option<I64>
  {
    var n := Read(text);
    if n.WellFormed() && n.Fits(scale) && scale <= 38 then ToI64(n.Ticks(scale)) else None
  }

  /** The magnitude bounds its parts, so a part out of range puts the value out of range. */
  lemma TicksMagnitude(n: Numeral, scale: nat)
    requires n.WellFormed()
    ensures 0 <= n.Kept(scale) < Pow10(scale)
    ensures NatOf(n.whole) <= NatOf(n.whole) * Pow10(scale) <= Abs(n.Ticks(scale))
    ensures |n.fraction| <= scale ==> NatOf(n.fraction) <= n.Kept(scale)
  {
    hide NatOf, Pow10;
    AtLeastOnce(NatOf(n.whole), Pow10(scale));
    if |n.fraction| <= scale {
      ValueBound(n.fraction);
      var k := scale - |n.fraction|;
      Pow10Splits(|n.fraction|, k);
      AtLeastOnce(NatOf(n.fraction), Pow10(k));
      Scale(NatOf(n.fraction) + 1, Pow10(|n.fraction|), Pow10(k));
      assert (NatOf(n.fraction) + 1) * Pow10(k) == NatOf(n.fraction) * Pow10(k) + Pow10(k);
    } else {
      ValueBound(n.fraction[..scale]);
    }
  }

  lemma AtLeastOnce(a: nat, b: int)
    requires b >= 1
    ensures a <= a * b
  {
  }

  /** Overflow checks on the way never refuse a value that fits: only the final range counts. */
  lemma StrictIsExact(text: string, scale: nat)
    ensures ParseTicks(text, scale) == Strict(text, scale)
  {
    var n := Read(text);
    SmallScale(scale);
    Pow10Marks();
    hide NatOf, Pow10, Read, Assemble, ToI64;
    if n.WellFormed() && |n.fraction| <= scale && scale <= 38 {
      TicksMagnitude(n, scale);
      Pow10Grows(scale, 38);
      AssembleIsExact(n.negative, NatOf(n.whole), NatOf(n.whole) * Pow10(scale), NatOf(n.fraction), n.Kept(scale));
    }
  }

  lemma AssembleIsExact(negative: bool, whole: nat, base: int, fraction: nat, kept: int)
    requires whole <= base && fraction <= kept <= I128_MAX
    ensures Assemble(negative, whole, base, fraction, kept) == ToI64(Signed(negative, base + kept))
  {
  }

  /** The lenient parser of the testnet runner, with its accumulator and its padding loop. */
  method ParseDecimalTicks(text: string, scale: nat) returns (r: Option<I64>)
    ensures r == Lenient(text, scale)
  {
    hide NatOf, Pow10, Read;
    SmallScale(scale);
    var n := Read(text);
    if !n.WellFormed() {
      return None;
    }
    TicksMagnitude(n, scale);
    if |n.fraction| > scale && exists i :: scale <= i < |n.fraction| && n.fraction[i] != '0' {
      return None;
    }
    if Pow10(scale) > I128_MAX {
      return None;
    }
    var whole := ParseI128(n.whole);
    if whole.None? {
      return None;
    }
    var result := whole.value * Pow10(scale);
    if Checked(result).None? {
      return None;
    }
    var text' := if |n.fraction| > scale then n.fraction[..scale] else n.fraction;
    ghost var kept := text';
    while |text'| < scale
      invariant |kept| <= |text'| <= scale && text' == kept + Zeros(|text'| - |kept|)
    {
      text' := text' + ['0'];
    }
    ZerosValue(|text'| - |kept|);
    ConcatValue(kept, Zeros(|text'| - |kept|));
    assert NatOf(text') == n.Kept(scale);
    Pow10Grows(scale, 38);
    Pow10Marks();
    if text' != [] {
      var fraction := ParseI128(text');
      if fraction.None? {
        return None;
      }
      result := result + fraction.value;
      if Checked(result).None? {
        return None;
      }
    }
    r := ToI64(if n.negative then -result else result);
  }

  /**
   Whatever the strict parser accepts, the lenient one reads as the same value; it accepts more exactly
   where zeros, and nothing but zeros, follow beyond the scale.
   */
  lemma LenientExtendsStrict(text: string, scale: nat)
    ensures ParseTicks(text, scale).Some? ==> Lenient(text, scale) == ParseTicks(text, scale)
    ensures Lenient(text, scale).Some? && ParseTicks(text, scale).None? <==>
      Lenient(text, scale).Some? && |Read(text).fraction| > scale
    ensures Lenient(text, scale).Some? <==>
      var n := Read(text);
      && n.whole != [] && AllDigits(n.whole) && AllDigits(n.fraction) && scale <= 38
      && (forall i :: scale <= i < |n.fraction| ==> n.fraction[i] == '0')
      && I64_MIN <= n.Ticks(scale) <= I64_MAX
  {
    StrictIsExact(text, scale);
  }

  // ---------------------------------------------------------------- printers

  function Print(negative: bool, whole: nat, fraction: nat, scale: nat): string
  {
    (if negative then ['-'] else [])
    + Digits(whole)
    + if scale == 0 then [] else ['.'] + PadLeft(Digits(fraction), scale)
  }

  /** The printer of the live runner: the divisor stops growing at the eighteenth power of ten. */
  function FormatLive(value: I64, scale: nat): string
  {
    var divisor := Pow10(Min(scale, 18));
    Print(value < 0, Quotient(Abs(value), divisor), Remainder(Abs(value), divisor), scale)
  }

  /** The printer of the testnet runner and of the order wire: the divisor is capped at the top of `i64`. */
  function FormatCapped(value: I64, scale: nat): string
  {
    var divisor := if Pow10(scale) <= I64_MAX then Pow10(scale) else I64_MAX;
    Print(value < 0, Quotient(Abs(value), divisor), Remainder(Abs(value), divisor), scale)
  }

  lemma Divisors(scale: nat)
    ensures Pow10(scale) <= I64_MAX <==> scale <= 18
    ensures scale > 18 ==> Pow10(scale) >= 10 * Pow10(18)
    ensures Pow10(18) == 1_000_000_000_000_000_000
  {
    Pow10Marks();
    hide Pow10;
    if scale <= 18 { Pow10Grows(scale, 18); } else { Pow10Grows(19, scale); }
  }

  /** Printed text reads back as the parts it was printed from. */
  lemma PrintedReads(negative: bool, whole: nat, fraction: nat, scale: nat)
    requires fraction < Pow10(scale)
    ensures var n := Read(Print(negative, whole, fraction, scale));
      && n.WellFormed() && n.negative == negative && |n.fraction| == scale
      && n.Ticks(scale) == Signed(negative, whole * Pow10(scale) + fraction)
  {
    PrintedFraction(fraction, scale);
    hide *;
    PrintedParts(negative, whole, fraction, scale);
    DigitsValue(whole);
    FullFractionTicks(Numeral(negative, Digits(whole), FractionText(fraction, scale)), scale);
  }

  function FractionText(fraction: nat, scale: nat): string
  {
    if scale == 0 then [] else PadLeft(Digits(fraction), scale)
  }

  lemma PrintedFraction(fraction: nat, scale: nat)
    requires fraction < Pow10(scale)
    ensures var f := FractionText(fraction, scale); AllDigits(f) && |f| == scale && NatOf(f) == fraction
  {
    if scale == 0 {
      assert Pow10(0) == 1;
    } else {
      hide NatOf, Pow10, Digits, PadLeft;
      PaddedDigits(fraction, scale);
    }
  }

  lemma FullFractionTicks(n: Numeral, scale: nat)
    requires n.whole != [] && AllDigits(n.whole) && AllDigits(n.fraction) && |n.fraction| == scale
    ensures n.WellFormed()
    ensures n.Ticks(scale) == Signed(n.negative, NatOf(n.whole) * Pow10(scale) + NatOf(n.fraction))
  {
    assert Pow10(0) == 1;
    hide NatOf, Pow10;
  }

  lemma PrintedParts(negative: bool, whole: nat, fraction: nat, scale: nat)
    requires fraction < Pow10(scale)
    ensures Read(Print(negative, whole, fraction, scale))
      == Numeral(negative, Digits(whole), FractionText(fraction, scale))
  {
    hide NatOf, Pow10, SplitPoint, Read;
    var w := Digits(whole);
    var f := PadLeft(Digits(fraction), scale);
    var body := if scale == 0 then w else w + ['.'] + f;
    hide Digits, PadLeft;
    SplitDigits(w, f);
    assert IsDigit(w[0]) && body[0] == w[0];
    ReadBody(negative, body);
    assert Print(negative, whole, fraction, scale) == (if negative then ['-'] else []) + body;
  }

  lemma ReadBody(negative: bool, body: string)
    requires body != [] && body[0] != '-'
    ensures Read((if negative then ['-'] else []) + body)
      == Numeral(negative, SplitPoint(body).0, SplitPoint(body).1)
  {
    hide SplitPoint;
    assert (['-'] + body)[1..] == body;
    assert [] + body == body;
  }

  /**
   Printing and parsing: the live runner's text reads back as the value if and only if the scale
   is at most eighteen, or at most thirty-eight with a value below the eighteenth power of ten.
   */
  lemma LiveRoundTrip(value: I64, scale: nat)
    ensures ParseTicks(FormatLive(value, scale), scale) == Some(value)
      <==> scale <= 18 || (scale <= 38 && Abs(value) < Pow10(18))
  {
    Divisors(scale);
    var divisor := Pow10(Min(scale, 18));
    RoundTrip(value, divisor, scale);
  }

  /** The same for the capped printer, whose divisor is slightly larger beyond eighteen places. */
  lemma CappedRoundTrip(value: I64, scale: nat)
    ensures ParseTicks(FormatCapped(value, scale), scale) == Some(value)
      <==> scale <= 18 || (scale <= 38 && Abs(value) < I64_MAX)
  {
    Divisors(scale);
    var divisor := if Pow10(scale) <= I64_MAX then Pow10(scale) else I64_MAX;
    RoundTrip(value, divisor, scale);
  }

  lemma RoundTrip(value: I64, divisor: int, scale: nat)
    requires if scale <= 18 then divisor == Pow10(scale) else 0 < divisor < Pow10(scale)
    ensures var text := Print(value < 0, Quotient(Abs(value), divisor), Remainder(Abs(value), divisor), scale);
      ParseTicks(text, scale) == Some(value) <==> scale <= 18 || (scale <= 38 && Abs(value) < divisor)
  {
    var a := Abs(value);
    var whole, fraction := DivideBy(a, divisor);
    hide *;
    ParsesPrinted(value < 0, whole, fraction, scale);
    WholeDecides(a, whole, fraction, divisor, Pow10(scale));
    SignedIsValue(value, Compose(whole, Pow10(scale), fraction));
  }

  /** A whole part in units of a power, and a rest. */
  function Compose(whole: nat, unit: int, rest: nat): nat
    requires unit >= 0
  {
    whole * unit + rest
  }

  lemma DivideBy(a: nat, divisor: int) returns (whole: nat, fraction: nat)
    requires divisor > 0
    ensures whole == Quotient(a, divisor) && fraction == Remainder(a, divisor)
    ensures fraction < divisor && a == Compose(whole, divisor, fraction)
  {
    whole, fraction := Quotient(a, divisor), Remainder(a, divisor);
  }

  lemma ParsesPrinted(negative: bool, whole: nat, fraction: nat, scale: nat)
    requires fraction < Pow10(scale)
    ensures ParseTicks(Print(negative, whole, fraction, scale), scale)
      == if scale <= 38 then ToI64(Signed(negative, Compose(whole, Pow10(scale), fraction))) else None
  {
    hide Print, ParseTicks, Pow10, Read, Signed, ToI64, NatOf, Digits;
    PrintedReads(negative, whole, fraction, scale);
    StrictIsExact(Print(negative, whole, fraction, scale), scale);
    hide Numeral.Ticks, Numeral.WellFormed;
  }

  lemma SignedIsValue(value: I64, magnitude: nat)
    ensures ToI64(Signed(value < 0, magnitude)) == Some(value) <==> magnitude == Abs(value)
  {
  }

  /** Scaling the whole part by more than the divisor keeps the value only if there is no whole part. */
  lemma WholeDecides(a: nat, whole: nat, fraction: nat, divisor: int, power: int)
    requires 0 <= fraction < divisor <= power
    requires a == Compose(whole, divisor, fraction)
    ensures Compose(whole, power, fraction) == a <==> divisor == power || a < divisor
  {
    if whole > 0 {
      Scale(1, whole, divisor);
      assert whole * power == whole * divisor + whole * (power - divisor);
      if divisor < power {
        Scale(1, whole, power - divisor);
      }
    }
  }

  /** The printers agree exactly up to eighteen places or for values below the eighteenth power of ten. */
  lemma PrintersAgree(value: I64, scale: nat)
    ensures FormatLive(value, scale) == FormatCapped(value, scale)
      <==> scale <= 18 || Abs(value) < Pow10(18)
  {
    Divisors(scale);
    hide Pow10, Print, Quotient, Remainder;
    if scale > 18 {
      var a := Abs(value);
      if a >= 1_000_000_000_000_000_000 {
        LeadingDigits(a);
        PrintsDiffer(
          value < 0, Quotient(a, Pow10(18)), Remainder(a, Pow10(18)),
          Quotient(a, I64_MAX), Remainder(a, I64_MAX), scale);
      } else {
        SmallQuotient(a, Pow10(18));
        SmallQuotient(a, I64_MAX);
      }
    }
  }

  lemma SmallQuotient(a: nat, b: int)
    requires a < b
    ensures Quotient(a, b) == 0 && Remainder(a, b) == a
  {
  }

  lemma LeadingDigits(a: nat)
    requires 1_000_000_000_000_000_000 <= a <= I64_MAX + 1
    ensures Quotient(a, 1_000_000_000_000_000_000) < 10 && Quotient(a, I64_MAX) < 10
    ensures Quotient(a, 1_000_000_000_000_000_000) != Quotient(a, I64_MAX)
  {
  }

  lemma PrintsDiffer(negative: bool, a: nat, f: nat, b: nat, g: nat, scale: nat)
    requires a < 10 && b < 10 && a != b
    ensures Print(negative, a, f, scale) != Print(negative, b, g, scale)
  {
    var k := if negative then 1 else 0;
    assert Print(negative, a, f, scale)[k] == DigitChar(a);
    assert Print(negative, b, g, scale)[k] == DigitChar(b);
  }
}
