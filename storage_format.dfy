/**
 * 64-bit integers and the fixed-width decimal rendering of sequence numbers
 * used inside document ids (StorageFormatExtensions.ToLeadingZerosFormat).
 */
module StorageFormat {
  import opened Text
  import opened KeyOrder

  const INT64_MIN: int := -0x8000_0000_0000_0000
  const INT64_MAX: int := 0x7FFF_FFFF_FFFF_FFFF

  /** A C# `long`. */
  type int64 = x: int | -0x8000_0000_0000_0000 <= x <= 0x7FFF_FFFF_FFFF_FFFF

  /** C#'s unchecked `x - 1` on a `long`: it wraps from the minimum to the maximum. */
  function Decrement(x: int64): (r: int64)
    ensures (x - 1 - r) % 0x1_0000_0000_0000_0000 == 0
    ensures x > INT64_MIN ==> r < x
  {
    if x == INT64_MIN then INT64_MAX else x - 1
  }

  /** The format string: nineteen `0` placeholders, enough for every `long`. */
  const Width: nat := 19

  function Pow10(n: nat): (p: nat)
    ensures p >= 1
  {
    if n == 0 then 1 else 10 * Pow10(n - 1)
  }

  lemma Pow10Width()
    ensures Pow10(Width) == 10_000_000_000_000_000_000
    ensures -INT64_MIN < Pow10(Width)
  {
    assert Pow10(5) == 100_000;
    assert Pow10(10) == 10_000_000_000;
    assert Pow10(15) == 1_000_000_000_000_000;
  }

  /** The last `w` decimal digits of `n`, most significant first, padded with zeros. */
  function PadDigits(n: nat, w: nat): (r: string)
    ensures |r| == w && AllDigits(r)
  {
    if w == 0 then [] else PadDigits(n / 10, w - 1) + [DigitChar(n % 10)]
  }

  lemma {:induction false} PadDigitsValue(n: nat, w: nat)
    requires n < Pow10(w)
    ensures DecimalValue(PadDigits(n, w)) == n
  {
    if w > 0 {
      var r := PadDigits(n, w);
      assert r[..|r| - 1] == PadDigits(n / 10, w - 1);
      PadDigitsValue(n / 10, w - 1);
    }
  }

  lemma {:induction false} PadDigitsOrder(a: nat, b: nat, w: nat)
    requires a < b < Pow10(w)
    ensures Less(PadDigits(a, w), PadDigits(b, w))
  {
    var pa, pb := PadDigits(a / 10, w - 1), PadDigits(b / 10, w - 1);
    var ca, cb := DigitChar(a % 10), DigitChar(b % 10);
    assert PadDigits(a, w) == pa + [ca] && PadDigits(b, w) == pb + [cb];
    if a / 10 < b / 10 {
      PadDigitsOrder(a / 10, b / 10, w - 1);
      LessEqualLengthAppend(pa, pb, [ca], [cb]);
    } else {
      assert a / 10 == b / 10 && a % 10 < b % 10;
      assert Less([ca], [cb]);
      LessCommonPrefix(pa, [ca], [cb]);
    }
  }

  /** `number.ToString("0000000000000000000")`. */
  function ToLeadingZerosFormat(number: int64): (r: string)
    ensures |r| == (if number < 0 then Width + 1 else Width)
    ensures number >= 0 ==> AllDigits(r)
  {
    if number >= 0 then PadDigits(number, Width)
    else "-" + PadDigits(-(number as int), Width)
  }

  /** Nineteen digits that read back as the number, after a minus sign when it is negative. */
  lemma FormatLayout(number: int64)
    ensures var r := ToLeadingZerosFormat(number);
            && (number >= 0 ==> |r| == Width && AllDigits(r) && DecimalValue(r) == number)
            && (number < 0 ==>
                  |r| == Width + 1 && r[0] == '-' && AllDigits(r[1..]) && DecimalValue(r[1..]) == -(number as int))
  {
    Pow10Width();
    if number >= 0 {
      PadDigitsValue(number, Width);
    } else {
      var magnitude: nat := -(number as int);
      PadDigitsValue(magnitude, Width);
      assert ("-" + PadDigits(magnitude, Width))[1..] == PadDigits(magnitude, Width);
    }
  }

  /** Ascending numbers give ascending strings, so distinct numbers give distinct strings. */
  lemma FormatOrder(a: int64, b: int64)
    requires 0 <= a < b
    ensures Less(ToLeadingZerosFormat(a), ToLeadingZerosFormat(b))
    ensures ToLeadingZerosFormat(a) != ToLeadingZerosFormat(b)
  {
    Pow10Width();
    PadDigitsOrder(a, b, Width);
    LessIrreflexive(ToLeadingZerosFormat(a));
  }
}
