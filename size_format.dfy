/** `format_size`: the size column of the long listing, as a plain integer
    or with a binary unit suffix. Sizes are integers; the one-decimal
    rendering of `size / 1024**k` is computed exactly, with ties to even as
    the floating-point formatter rounds an exactly representable value. */
module SizeFormat {
  import opened Text

  /** Width of the size column. */
  const Width: nat := 8

  /** The unit tried at each division step; the empty unit is never used,
      since the human-readable branch is only entered from 1024 upwards. */
  const Units: seq<string> := ["", "K", "M", "G", "T", "P", "E", "Z"]

  function Pow1024(k: nat): (p: nat)
    ensures p >= 1
  {
    if k == 0 then 1 else 1024 * Pow1024(k - 1)
  }

  lemma {:induction false} Pow1024Monotonic(j: nat, k: nat)
    requires j <= k
    ensures Pow1024(j) <= Pow1024(k)
    decreases k - j
  {
    if j < k {
      Pow1024Monotonic(j, k - 1);
    }
  }

  /** The suffix for `size / 1024**k`: `Units[k]`, and `Y` once all eight
      steps are used up. */
  function Suffix(k: nat): string
    requires k <= 8
  {
    if k < 8 then Units[k] else "Y"
  }

  /** The unit index the division loop stops at, from `k` upwards. */
  function UnitFrom(size: int, k: nat): (u: nat)
    requires 1 <= k <= 8 && Pow1024(k) <= size
    ensures k <= u <= 8
    ensures Pow1024(u) <= size
    ensures u < 8 ==> size < Pow1024(u + 1)
    decreases 8 - k
  {
    if k == 8 || size < Pow1024(k + 1) then k else UnitFrom(size, k + 1)
  }

  /** The unit the human-readable branch picks for a size of at least 1024:
      `1024**k <= size`, and `size < 1024**(k + 1)` unless `k` is the last
      unit `Y`. */
  function SizeUnit(size: int): (k: nat)
    requires size >= 1024
    ensures 1 <= k <= 8
    ensures Pow1024(k) <= size
    ensures k < 8 ==> size < Pow1024(k + 1)
  {
    UnitFrom(size, 1)
  }

  /** The unit is the smallest `k >= 1` with `size < 1024**(k + 1)`, and the
      only one that brackets the size. */
  lemma SizeUnitSmallest(size: int, k: nat)
    requires size >= 1024
    requires 1 <= k <= 8 && Pow1024(k) <= size && (k < 8 ==> size < Pow1024(k + 1))
    ensures SizeUnit(size) == k
    ensures forall j :: 2 <= j <= k ==> Pow1024(j) <= size
  {
    var u := SizeUnit(size);
    if u < k {
      Pow1024Monotonic(u + 1, k);
    } else if k < u {
      Pow1024Monotonic(k + 1, u);
    }
    forall j | 2 <= j <= k ensures Pow1024(j) <= size {
      Pow1024Monotonic(j, k);
    }
  }

  /** `n / d` rounded to the nearest integer, ties to the even one: it is
      the quotient rounded down when the remainder is below half of `d`, the
      quotient rounded up when it is above, and the even one of the two on a
      tie. */
  function RoundHalfEven(n: nat, d: nat): (q: nat)
    requires d > 0
    ensures 2 * (n % d) < d ==> q == n / d
    ensures 2 * (n % d) > d ==> q == n / d + 1
    ensures 2 * (n % d) == d ==> (q == n / d || q == n / d + 1) && q % 2 == 0
  {
    var q := n / d;
    var rem := n % d;
    if 2 * rem < d then q
    else if 2 * rem > d then q + 1
    else if q % 2 == 0 then q
    else q + 1
  }

  /** `f"{size / scale:.1f}"` for a positive `size`: whole part, a point and
      one decimal. */
  function OneDecimal(size: nat, scale: nat): (s: string)
    requires scale > 0
  {
    var tenths := RoundHalfEven(10 * size, scale);
    NatToString(tenths / 10) + "." + [DigitChar(tenths % 10)]
  }

  /** The printed number is digits, a point and one digit, and read back it
      is the number of tenths nearest to `size / scale`. */
  lemma OneDecimalValue(size: nat, scale: nat)
    requires scale > 0
    ensures var s := OneDecimal(size, scale);
      && |s| >= 3 && s[|s| - 2] == '.' && IsDigit(s[|s| - 1])
      && (forall i :: 0 <= i < |s| - 2 ==> IsDigit(s[i]))
      && 10 * DigitsValue(s[..|s| - 2]) + DigitOf(s[|s| - 1]) == RoundHalfEven(10 * size, scale)
  {
    var tenths := RoundHalfEven(10 * size, scale);
    var whole := NatToString(tenths / 10);
    var s := OneDecimal(size, scale);
    assert s == whole + "." + [DigitChar(tenths % 10)];
    assert s[..|s| - 2] == whole;
    NatToStringValue(tenths / 10);
    assert DigitOf(s[|s| - 1]) == tenths % 10;
  }

  /** What `format_size(size, human_readable)` returns. */
  function SizeText(size: int, humanReadable: bool): string {
    if !humanReadable || size < 1024 then RightJustify(IntToString(size), Width)
    else
      var k := SizeUnit(size);
      RightJustify(OneDecimal(size, Pow1024(k)) + Suffix(k), Width)
  }

  /** `format_size`: the loop dividing by 1024 until the value is below 1024. */
  method FormatSize(size: int, humanReadable: bool) returns (r: string)
    ensures r == SizeText(size, humanReadable)
  {
    if !humanReadable || size < 1024 {
      return RightJustify(IntToString(size), Width);
    }
    var scale := 1;
    var u := 0;
    while u < |Units|
      invariant 0 <= u <= 8
      invariant scale == Pow1024(u)
      invariant scale <= size
    {
      if size < scale * 1024 {
        SizeUnitSmallest(size, u);
        return RightJustify(OneDecimal(size, scale) + Units[u], Width);
      }
      scale := scale * 1024;
      u := u + 1;
    }
    SizeUnitSmallest(size, 8);
    return RightJustify(OneDecimal(size, scale) + "Y", Width);
  }

  /** The column is at least eight characters wide and ends with the number
      (plain) or with the unit letter (human-readable). */
  lemma SizeTextShape(size: int, humanReadable: bool)
    ensures var r := SizeText(size, humanReadable);
      && |r| >= Width
      && (!humanReadable || size < 1024 ==> r[|r| - |IntToString(size)|..] == IntToString(size))
      && (humanReadable && size >= 1024 ==> r[|r| - 1] == "KMGTPEZY"[SizeUnit(size) - 1])
  {
    if humanReadable && size >= 1024 {
      UnitLetterLast(size);
    }
  }

  lemma SuffixLetter(k: nat)
    requires 1 <= k <= 8
    ensures Suffix(k) == ["KMGTPEZY"[k - 1]]
  {
    if k == 1 {} else if k == 2 {} else if k == 3 {} else if k == 4 {}
    else if k == 5 {} else if k == 6 {} else if k == 7 {}
  }

  lemma UnitLetterLast(size: int)
    requires size >= 1024
    ensures var r := SizeText(size, true); r[|r| - 1] == "KMGTPEZY"[SizeUnit(size) - 1]
  {
    var k := SizeUnit(size);
    var body := OneDecimal(size, Pow1024(k)) + Suffix(k);
    SuffixLetter(k);
    assert body[|body| - 1] == "KMGTPEZY"[k - 1];
    var r := RightJustify(body, Width);
    assert r[|r| - |body|..] == body;
    assert r[|r| - 1] == body[|body| - 1];
  }

  /** The plain branch of the test: `format_size(1000) == "    1000"`. */
  lemma PlainSample()
    ensures SizeText(1000, false) == "    1000"
  {
    assert NatToString(1000) == "1000" by {
      assert NatToString(1) == "1";
      assert NatToString(10) == "10";
      assert NatToString(100) == "100";
    }
  }

  /** `format_size(1024, True)`: one kibibyte is `1.0K`, right-justified in
      eight columns (four spaces in front). */
  lemma KibibyteSample()
    ensures SizeText(1024, true) == "    1.0K"
  {
    KibibyteUnit();
    KibibyteDigits();
  }

  lemma KibibyteUnit()
    ensures SizeUnit(1024) == 1
  {
    SizeUnitSmallest(1024, 1);
  }

  lemma KibibyteDigits()
    ensures OneDecimal(1024, Pow1024(1)) == "1.0"
  {
    assert RoundHalfEven(10240, 1024) == 10;
  }

  /** `format_size(1048576, True)` is `1.0M` in eight columns. */
  lemma MebibyteSample()
    ensures SizeText(1048576, true) == "    1.0M"
  {
    MebibyteUnit();
    MebibyteDigits();
  }

  lemma MebibyteUnit()
    ensures SizeUnit(1048576) == 2
  {
    assert Pow1024(2) == 1048576;
    assert Pow1024(3) == 1073741824;
    SizeUnitSmallest(1048576, 2);
  }

  lemma MebibyteDigits()
    ensures OneDecimal(1048576, Pow1024(2)) == "1.0"
  {
    assert Pow1024(2) == 1048576;
    assert RoundHalfEven(10485760, 1048576) == 10;
  }

  /** `1280 / 1024` is exactly `1.25`, which the one-decimal format rounds
      to the even tenth: `format_size(1280, True)` is `1.2K`. */
  lemma HalfwaySample()
    ensures SizeText(1280, true) == "    1.2K"
  {
    SizeUnitSmallest(1280, 1);
    assert RoundHalfEven(12800, 1024) == 12;
  }
}
