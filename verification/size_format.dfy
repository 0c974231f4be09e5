/**
 * human_readable_size and the str(size) alternative: a byte count as exact
 * decimal digits, or scaled by 1024 into one of the units B, K, M, G, T, P
 * with one decimal digit.
 */
module SizeFormat {
  import opened Numbers

  const Units: string := "BKMGTP"

  function Pow1024(k: nat): (p: nat)
    ensures p > 0
  {
    if k == 0 then 1 else 1024 * Pow1024(k - 1)
  }

  lemma {:induction false} Pow1024Monotone(i: nat, j: nat)
    requires i <= j
    ensures Pow1024(i) <= Pow1024(j)
    decreases j
  {
    if i < j {
      Pow1024Monotone(i, j - 1);
    }
  }

  /**
   * The unit the size gets: the largest k <= 5 with 1024^k <= n, and 0
   * (bytes) when n < 1024.
   */
  function UnitIndex(n: nat): (k: nat)
    ensures k < |Units|
    ensures k > 0 ==> Pow1024(k) <= n
    ensures k < |Units| - 1 ==> n < Pow1024(k + 1)
  {
    assert Pow1024(1) == 1024;
    assert Pow1024(2) == 1048576;
    assert Pow1024(3) == 1073741824;
    assert Pow1024(4) == 1099511627776;
    assert Pow1024(5) == 1125899906842624;
    if n < 1024 then 0
    else if n < 1048576 then 1
    else if n < 1073741824 then 2
    else if n < 1099511627776 then 3
    else if n < 1125899906842624 then 4
    else 5
  }

  /**
   * f"{v:.1f}" for v >= 0: integer digits, a point and one digit, which
   * read back as tenths give v * 10 rounded half to even.
   */
  function FormatOneDecimal(v: real): (s: string)
    requires v >= 0.0
    ensures |s| >= 3 && s[|s| - 2] == '.'
    ensures IsDigits(s[..|s| - 2]) && IsDigit(s[|s| - 1])
    ensures |s| > 3 ==> s[0] != '0'
    ensures DigitsValue(s[..|s| - 2]) * 10 + DigitValue(s[|s| - 1]) == RoundHalfEven(v * 10.0)
  {
    var tenths := RoundHalfEven(v * 10.0);
    var whole := NatToString(tenths / 10);
    NatToStringRoundTrip(tenths / 10);
    var s := whole + "." + [DigitChar(tenths % 10)];
    assert s[..|s| - 2] == whole;
    s
  }

  /** human_readable_size(n): the scaled value, a space and the unit letter. */
  function HumanReadable(n: nat): string {
    var k := UnitIndex(n);
    FormatOneDecimal(n as real / Pow1024(k) as real) + " " + [Units[k]]
  }

  /** The size column: str(size), or human_readable_size(size) under -H. */
  function SizeText(n: nat, humanReadable: bool): string {
    if humanReadable then HumanReadable(n) else NatToString(n)
  }

  /**
   * str(size) is digits without a superfluous leading zero that read back
   * as the size; human_readable_size(size) ends in a space and a unit
   * letter, B exactly below 1024 bytes.
   */
  lemma SizeTextForm(n: nat, humanReadable: bool)
    ensures var s := SizeText(n, humanReadable);
      && (!humanReadable ==> IsDigits(s) && DigitsValue(s) == n && (|s| > 1 ==> s[0] != '0'))
      && (humanReadable ==> |s| >= 5 && s[|s| - 2] == ' ' && s[|s| - 1] in Units)
      && (humanReadable ==> (s[|s| - 1] == 'B' <==> n < 1024))
  {
    assert Pow1024(1) == 1024;
    NatToStringRoundTrip(n);
  }

  lemma ScaledAtLeast1024(n: real, p: real)
    requires p > 0.0
    ensures n / p >= 1024.0 <==> n >= 1024.0 * p
    ensures n / p / 1024.0 == n / (1024.0 * p)
  {
  }

  /**
   * human_readable_size(size_bytes): divides by 1024 while the value is at
   * least 1024 and a larger unit remains, then formats the value and unit.
   */
  method HumanReadableSize(sizeBytes: nat) returns (text: string)
    ensures text == HumanReadable(sizeBytes)
    ensures text[|text| - 1] in Units
    ensures text[|text| - 1] == 'B' <==> sizeBytes < 1024
  {
    var index := 0;
    var size := sizeBytes as real;
    while size >= 1024.0 && index < |Units| - 1
      invariant index <= UnitIndex(sizeBytes)
      invariant size == sizeBytes as real / Pow1024(index) as real
    {
      ScaledAtLeast1024(sizeBytes as real, Pow1024(index) as real);
      assert Pow1024(index + 1) == 1024 * Pow1024(index);
      assert index < UnitIndex(sizeBytes);
      size := size / 1024.0;
      index := index + 1;
    }
    ScaledAtLeast1024(sizeBytes as real, Pow1024(index) as real);
    if index < UnitIndex(sizeBytes) {
      Pow1024Monotone(index + 1, UnitIndex(sizeBytes));
    }
    text := FormatOneDecimal(size) + " " + [Units[index]];
  }

  /** Zero bytes print as "0.0 B". */
  lemma HumanReadableZero()
    ensures HumanReadable(0) == "0.0 B"
  {
    assert UnitIndex(0) == 0;
    assert RoundHalfEven(0.0) == 0;
    assert FormatOneDecimal(0.0) == "0.0";
  }

  /** 1024 bytes print as "1.0 K". */
  lemma HumanReadableOneK()
    ensures HumanReadable(1024) == "1.0 K"
  {
    assert UnitIndex(1024) == 1;
    assert 1024 as real / Pow1024(1) as real == 1.0;
    assert RoundHalfEven(10.0) == 10;
    assert FormatOneDecimal(1.0) == "1.0";
  }

  /** 11075584 bytes are 10.5625 MiB and print as "10.6 M". */
  lemma HumanReadableTenPointSixM()
    ensures HumanReadable(11075584) == "10.6 M"
  {
    assert UnitIndex(11075584) == 2;
    assert Pow1024(2) == 1048576;
    assert 11075584 as real / 1048576 as real == 10.5625;
    assert RoundHalfEven(105.625) == 106;
    assert NatToString(10) == "10";
    assert FormatOneDecimal(10.5625) == "10.6";
  }
}
