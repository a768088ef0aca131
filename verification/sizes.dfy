/**
  * Byte counts as the catalog shows them: the adaptive unit of convert_size for the total
  * and the fixed megabyte display of get_file_size for each file. Both are modelled on
  * integers: a displayed number is kept as a count of hundredths.
  */
module Sizes {
  import opened Results
  import opened Text

  /** 1024 to the power k. */
  function Pow1024(k: nat): (p: nat)
    ensures p >= 1
  {
    if k == 0 then 1 else 1024 * Pow1024(k - 1)
  }

  lemma {:induction false} Pow1024Monotonic(j: nat, k: nat)
    ensures j <= k ==> Pow1024(j) <= Pow1024(k)
  {
    if j < k {
      Pow1024Monotonic(j, k - 1);
    }
  }

  /** The unit names of convert_size, one per power of 1024. */
  const UnitNames: seq<string> := ["B", "KB", "MB", "GB", "TB"]

  /** The index of "MB" in UnitNames: get_file_size always shows megabytes. */
  const MegabyteUnit: nat := 2

  /**
    * The exponent floor(log(b, 1024)) is meant to compute: the largest k with 1024^k <= b.
    */
  function UnitIndex(b: nat): (i: nat)
    requires b >= 1
    ensures Pow1024(i) <= b < Pow1024(i + 1)
  {
    if b < 1024 then 0
    else
      var i := 1 + UnitIndex(b / 1024);
      assert 1024 * (b / 1024) <= b < 1024 * (b / 1024) + 1024;
      i
  }

  /** No other exponent brackets b: UnitIndex is the largest k with 1024^k <= b. */
  lemma UnitIndexUnique(b: nat, k: nat)
    requires Pow1024(k) <= b < Pow1024(k + 1)
    ensures UnitIndex(b) == k
  {
    var i := UnitIndex(b);
    Pow1024Monotonic(i + 1, k);
    Pow1024Monotonic(k + 1, i);
  }

  /**
    * The integer nearest to n / d, ties going to the even neighbour. Python's round(x, 2) and
    * the format ".2f" both round the exact value of a double this way; the quotients rounded
    * here are exact doubles.
    */
  function RoundHalfEven(n: nat, d: nat): (q: nat)
    requires d > 0
    ensures 2 * n <= 2 * (q * d) + d
    ensures 2 * (q * d) <= 2 * n + d
    ensures (2 * (q * d) == 2 * n + d || 2 * (q * d) + d == 2 * n) ==> q % 2 == 0
  {
    var q0 := n / d;
    var r := n % d;
    var up := 2 * r > d || (2 * r == d && q0 % 2 == 1);
    var q := if up then q0 + 1 else q0;
    QuotientRemainder(n, d);
    RoundingStep(n, d, q0, r, up, q);
    q
  }

  lemma QuotientRemainder(n: nat, d: nat)
    requires d > 0
    ensures n == (n / d) * d + n % d
    ensures 0 <= n % d < d
  {
  }

  /** The step from n = q0 * d + r to the rounded quotient, with the products kept linear. */
  lemma RoundingStep(n: nat, d: nat, q0: nat, r: nat, up: bool, q: nat)
    requires d > 0 && r < d
    requires n == q0 * d + r
    requires up <==> (2 * r > d || (2 * r == d && q0 % 2 == 1))
    requires q == if up then q0 + 1 else q0
    ensures 2 * n <= 2 * (q * d) + d
    ensures 2 * (q * d) <= 2 * n + d
    ensures (2 * (q * d) == 2 * n + d || 2 * (q * d) + d == 2 * n) ==> q % 2 == 0
  {
    var m := q0 * d;
    assert (q0 + 1) * d == m + d;
  }

  /** The value round(b / 1024^i, 2) that convert_size prints, in hundredths. */
  function ScaledHundredths(b: nat, i: nat): (h: nat)
    ensures 2 * (100 * b) <= 2 * (h * Pow1024(i)) + Pow1024(i)
    ensures 2 * (h * Pow1024(i)) <= 2 * (100 * b) + Pow1024(i)
  {
    RoundHalfEven(100 * b, Pow1024(i))
  }

  /**
    * Python's repr of the float h / 100: the whole part, a point, and the hundredths with
    * trailing zeros dropped but at least one digit kept ("1.0", "1.5", "1.25").
    */
  function FloatText(h: nat): (t: string)
    ensures |t| >= 3
    ensures t[0] == '0' ==> t[1] == '.'
    ensures t[|t| - 2] == '.' ==>
      && IsDigits(t[..|t| - 2]) && DigitsValue(t[..|t| - 2]) == h / 100
      && IsDigit(t[|t| - 1]) && 10 * DigitValue(t[|t| - 1]) == h % 100
    ensures t[|t| - 2] != '.' ==>
      && t[|t| - 3] == '.'
      && IsDigits(t[..|t| - 3]) && DigitsValue(t[..|t| - 3]) == h / 100
      && IsDigit(t[|t| - 2]) && IsDigit(t[|t| - 1]) && 10 * DigitValue(t[|t| - 2]) + DigitValue(t[|t| - 1]) == h % 100
      && t[|t| - 1] != '0'
  {
    var whole := NatToString(h / 100);
    var cents := h % 100;
    if cents == 0 then
      var t := whole + ".0";
      assert t[..|t| - 2] == whole;
      t
    else if cents % 10 == 0 then
      var t := whole + "." + [DigitChar(cents / 10)];
      assert t[..|t| - 2] == whole;
      t
    else
      var t := whole + "." + [DigitChar(cents / 10), DigitChar(cents % 10)];
      assert t[..|t| - 3] == whole;
      assert t[|t| - 2] == DigitChar(cents / 10);
      t
  }

  /** The format ".2f" applied to h / 100: always exactly two decimals. */
  function FixedText(h: nat): (t: string)
    ensures |t| >= 4 && t[|t| - 3] == '.'
    ensures t[0] == '0' ==> t[..|t| - 3] == "0"
    ensures IsDigits(t[..|t| - 3]) && DigitsValue(t[..|t| - 3]) == h / 100
    ensures IsDigit(t[|t| - 2]) && IsDigit(t[|t| - 1]) && 10 * DigitValue(t[|t| - 2]) + DigitValue(t[|t| - 1]) == h % 100
  {
    var cents := h % 100;
    var whole := NatToString(h / 100);
    var t := whole + "." + [DigitChar(cents / 10), DigitChar(cents % 10)];
    assert t[..|t| - 3] == whole;
    t
  }

  /**
    * The least integer that does not convert to a double: 2^1024 - 2^970 lies halfway between the
    * largest finite double and 2^1024, and rounds up, out of range.
    */
  const FloatOverflow: nat := 179769313486231580793728971405303415079934132710037826936173778980444968292764750946649017977587207096330286416692887910946555547851940402630657488671505820681908902000708383676273854845817711531764475730270069855571366959622842914819860834936475292719074168444365510704342711559699508093042880177904174497792

  /**
    * convert_size: "0 B" for zero, otherwise the byte count scaled to its unit, rounded to two
    * decimals, and followed by the unit name. From 1024^5 bytes on there is no unit name and
    * the subscript raises IndexError, unless the count is already too large for the float
    * arithmetic before it: from FloatOverflow on, either math.pow(1024, i) or size_bytes / p
    * raises OverflowError.
    */
  function ConvertSize(b: nat): (r: Result<string>)
    ensures b == 0 ==> r == Success("0 B")
    ensures r.Failure? <==> b >= Pow1024(|UnitNames|)
    ensures r == Failure(OverflowError) <==> b >= FloatOverflow
    ensures r.Failure? && b < FloatOverflow ==> r == Failure(IndexError)
  {
    if b == 0 then Success("0 B")
    else if b >= FloatOverflow then
      assert |UnitNames| == 5 && Pow1024(5) == 1125899906842624;
      Failure(OverflowError)
    else
      var i := UnitIndex(b);
      Pow1024Monotonic(i + 1, |UnitNames|);
      Pow1024Monotonic(|UnitNames|, i);
      var unit :- PyIndex(UnitNames, i);
      Success(FloatText(ScaledHundredths(b, i)) + " " + unit)
  }

  /** A byte count of at least one lands in its unit with a value in [1, 1024] after rounding. */
  lemma ScaledHundredthsBounds(b: nat)
    requires b >= 1
    ensures 100 <= ScaledHundredths(b, UnitIndex(b)) <= 102400
  {
    var i := UnitIndex(b);
    var p := Pow1024(i);
    var h := ScaledHundredths(b, i);
    var x := h * p;
    assert Pow1024(i + 1) == 1024 * p;
    assert 2 * (100 * b) <= 2 * x + p;
    assert 2 * x <= 2 * (100 * b) + p;
    ScaledBounds(b, p, h, x);
  }

  /** The bounds on the rounded hundredths h with h * p = x, where p <= b < 1024 * p. */
  lemma ScaledBounds(b: nat, p: nat, h: nat, x: nat)
    requires 1 <= p <= b < 1024 * p
    requires x == h * p
    requires 200 * b <= 2 * x + p
    requires 2 * x <= 200 * b + p
    ensures 100 <= h <= 102400
  {
    MulMonotonic(h, 99, p);
    MulMonotonic(102401, h, p);
  }

  lemma MulMonotonic(a: nat, b: nat, p: nat)
    ensures a <= b ==> a * p <= b * p
  {
  }

  /**
    * The fixed display of get_file_size: the byte count in megabytes (bytes / 2^20) with two
    * decimals, then " MB", whatever the magnitude.
    */
  function FileSizeDisplay(b: nat): string
  {
    FixedText(RoundHalfEven(100 * b, Pow1024(MegabyteUnit))) + " MB"
  }

  /** get_file_size with the file's length given: the raw byte count and its megabyte display. */
  function GetFileSize(sizeBytes: nat): (r: (nat, string))
    ensures r.0 == sizeBytes
    ensures EndsWith(r.1, " MB")
  {
    (sizeBytes, FileSizeDisplay(sizeBytes))
  }

  /** A displayed size read back: a number in hundredths and the index of its unit. */
  datatype Reading = Reading(hundredths: nat, unit: nat)

  /** The index of a unit name in UnitNames. */
  function UnitOf(name: string): (r: Option<nat>)
    ensures r.Some? ==> r.value < |UnitNames| && UnitNames[r.value] == name
    ensures r.None? ==> name !in UnitNames
  {
    if name == "B" then Some(0)
    else if name == "KB" then Some(1)
    else if name == "MB" then Some(2)
    else if name == "GB" then Some(3)
    else if name == "TB" then Some(4)
    else None
  }

  /** A decimal number with at most two decimals, in hundredths: "8", "8.5", "8.05". */
  function ParseDecimal(s: string): Option<nat>
  {
    DecimalParts(Split(s, '.'))
  }

  /** The value of a number split at its point: a digit run, optionally followed by one or two decimals. */
  function DecimalParts(parts: seq<string>): Option<nat>
  {
    if |parts| == 1 && IsDigits(parts[0]) then Some(100 * DigitsValue(parts[0]))
    else if |parts| == 2 && IsDigits(parts[0]) && IsDigits(parts[1]) && |parts[1]| <= 2 then
      Some(Hundredths(parts[0], parts[1]))
    else None
  }

  /** whole.frac in hundredths, for one or two decimals. */
  function Hundredths(whole: string, frac: string): nat
    requires IsDigits(whole) && IsDigits(frac)
  {
    100 * DigitsValue(whole) + (if |frac| == 1 then 10 * DigitsValue(frac) else DigitsValue(frac))
  }

  /** Reads "<number> <unit>" back into hundredths and a unit index. */
  function ParseSize(s: string): Option<Reading>
  {
    var parts := Split(s, ' ');
    if |parts| != 2 then None
    else
      var h :- ParseDecimal(parts[0]);
      var u :- UnitOf(parts[1]);
      Some(Reading(h, u))
  }

  lemma DigitsHaveNoSeparator(s: string, c: char)
    requires IsDigits(s)
    requires !IsDigit(c)
    ensures c !in s
  {
  }

  /** Splitting whole + "." + frac at the point gives back the two digit runs. */
  lemma SplitDecimal(whole: string, frac: string)
    requires IsDigits(whole) && IsDigits(frac)
    ensures Split(whole + "." + frac, '.') == [whole, frac]
  {
    DigitsHaveNoSeparator(whole, '.');
    DigitsHaveNoSeparator(frac, '.');
    assert whole + "." + frac == whole + ['.'] + frac;
    SplitAppend(whole, frac, '.');
    SplitWithoutSeparator(whole, '.');
    SplitWithoutSeparator(frac, '.');
  }

  /** A text that splits at its one point into digit runs reads back as their value in hundredths. */
  lemma ParseDecimalOf(s: string, whole: string, frac: string)
    requires IsDigits(whole) && IsDigits(frac) && |frac| <= 2
    requires Split(s, '.') == [whole, frac]
    ensures ParseDecimal(s) == Some(Hundredths(whole, frac))
  {
    var parts := [whole, frac];
    assert parts[0] == whole && parts[1] == frac;
    assert DecimalParts(parts) == Some(Hundredths(whole, frac));
  }

  /** The float text of h reads back as h. */
  lemma {:induction false} FloatTextRoundTrip(h: nat)
    ensures ParseDecimal(FloatText(h)) == Some(h)
  {
    var cents := h % 100;
    if cents == 0 {
      FloatTextWholeRoundTrip(h);
    } else if cents % 10 == 0 {
      FloatTextTenthsRoundTrip(h);
    } else {
      FixedTextRoundTrip(h);
      assert FloatText(h) == FixedText(h);
    }
  }

  /** A whole number of units is written with a single zero decimal, which reads back as h. */
  lemma FloatTextWholeRoundTrip(h: nat)
    requires h % 100 == 0
    ensures ParseDecimal(FloatText(h)) == Some(h)
  {
    var whole := NatToString(h / 100);
    assert FloatText(h) == whole + "." + "0";
    SplitDecimal(whole, "0");
    ParseDecimalOf(FloatText(h), whole, "0");
    DigitsValueOfOne('0');
  }

  /** A whole number of tenths is written with one decimal, which reads back as h. */
  lemma FloatTextTenthsRoundTrip(h: nat)
    requires h % 100 != 0 && h % 100 % 10 == 0
    ensures ParseDecimal(FloatText(h)) == Some(h)
  {
    var whole := NatToString(h / 100);
    var d := DigitChar(h % 100 / 10);
    assert FloatText(h) == whole + "." + [d];
    SplitDecimal(whole, [d]);
    ParseDecimalOf(FloatText(h), whole, [d]);
    DigitsValueOfOne(d);
  }

  /** The fixed text of h reads back as h. */
  lemma {:induction false} FixedTextRoundTrip(h: nat)
    ensures ParseDecimal(FixedText(h)) == Some(h)
  {
    var whole := NatToString(h / 100);
    var cents := h % 100;
    var d1, d2 := DigitChar(cents / 10), DigitChar(cents % 10);
    assert FixedText(h) == whole + "." + [d1, d2];
    SplitDecimal(whole, [d1, d2]);
    ParseDecimalOf(FixedText(h), whole, [d1, d2]);
    DigitsValueOfTwo(d1, d2);
  }

  /** A number text followed by a unit name reads back as that number and unit. */
  lemma ParseSizeOf(number: string, h: nat, unit: nat)
    requires ParseDecimal(number) == Some(h)
    requires ' ' !in number
    requires unit < |UnitNames|
    ensures ParseSize(number + " " + UnitNames[unit]) == Some(Reading(h, unit))
  {
    var name := UnitNames[unit];
    assert ' ' !in name;
    assert number + " " + name == number + [' '] + name;
    SplitAppend(number, name, ' ');
    SplitWithoutSeparator(number, ' ');
    SplitWithoutSeparator(name, ' ');
  }

  lemma FloatTextHasNoSpace(h: nat)
    ensures ' ' !in FloatText(h)
  {
    var whole := NatToString(h / 100);
    DigitsHaveNoSeparator(whole, ' ');
  }

  lemma FixedTextHasNoSpace(h: nat)
    ensures ' ' !in FixedText(h)
  {
    var whole := NatToString(h / 100);
    DigitsHaveNoSeparator(whole, ' ');
  }

  /**
    * Reading the text of convert_size back gives the byte count within rounding: a number of
    * hundredths h and a unit u with |h * 1024^u - 100 * b| at most half a unit step, where u
    * brackets b between 1024^u and 1024^(u+1) for any non-zero b.
    */
  lemma ConvertSizeRoundTrip(b: nat)
    requires b < Pow1024(|UnitNames|)
    ensures ConvertSize(b).Success?
    ensures var reading := ParseSize(ConvertSize(b).value);
      && reading.Some?
      && reading.value.unit < |UnitNames|
      && 2 * (100 * b) <= 2 * (reading.value.hundredths * Pow1024(reading.value.unit)) + Pow1024(reading.value.unit)
      && 2 * (reading.value.hundredths * Pow1024(reading.value.unit)) <= 2 * (100 * b) + Pow1024(reading.value.unit)
      && (b > 0 ==> Pow1024(reading.value.unit) <= b < Pow1024(reading.value.unit + 1))
  {
    if b == 0 {
      assert "0 B" == "0" + " " + UnitNames[0];
      SplitWithoutSeparator("0", '.');
      DigitsValueOfOne('0');
      assert ParseDecimal("0") == Some(0);
      ParseSizeOf("0", 0, 0);
    } else {
      var i := UnitIndex(b);
      var h := ScaledHundredths(b, i);
      Pow1024Monotonic(|UnitNames|, i);
      assert ConvertSize(b).value == FloatText(h) + " " + UnitNames[i];
      FloatTextRoundTrip(h);
      FloatTextHasNoSpace(h);
      ParseSizeOf(FloatText(h), h, i);
    }
  }

  /**
    * Reading the megabyte display back gives the unit "MB" and the byte count within half a
    * hundredth of a megabyte.
    */
  lemma FileSizeDisplayRoundTrip(b: nat)
    ensures var reading := ParseSize(FileSizeDisplay(b));
      && reading.Some?
      && reading.value.unit == MegabyteUnit
      && 2 * (100 * b) <= 2 * (reading.value.hundredths * Pow1024(MegabyteUnit)) + Pow1024(MegabyteUnit)
      && 2 * (reading.value.hundredths * Pow1024(MegabyteUnit)) <= 2 * (100 * b) + Pow1024(MegabyteUnit)
  {
    var h := RoundHalfEven(100 * b, Pow1024(MegabyteUnit));
    assert FileSizeDisplay(b) == FixedText(h) + " " + UnitNames[MegabyteUnit];
    FixedTextRoundTrip(h);
    FixedTextHasNoSpace(h);
    ParseSizeOf(FixedText(h), h, MegabyteUnit);
  }

  /** The megabyte display is always digits, a point, exactly two decimals and " MB". */
  lemma FileSizeDisplayShape(b: nat)
    ensures var t := FileSizeDisplay(b);
      && |t| >= 7
      && IsDigits(t[..|t| - 6])
      && t[|t| - 6] == '.'
      && IsDigit(t[|t| - 5]) && IsDigit(t[|t| - 4])
      && t[|t| - 3..] == " MB"
  {
    var h := RoundHalfEven(100 * b, Pow1024(MegabyteUnit));
    var whole := NatToString(h / 100);
    var d1, d2 := DigitChar(h % 100 / 10), DigitChar(h % 100 % 10);
    var t := FileSizeDisplay(b);
    assert t == whole + ['.', d1, d2, ' ', 'M', 'B'];
    assert t[..|t| - 6] == whole;
  }

  /** The display always has two decimals: 8 MiB shows as "8.00 MB". */
  lemma FileSizeDisplayExample()
    ensures FileSizeDisplay(8388608) == "8.00 MB"
  {
    assert Pow1024(MegabyteUnit) == 1048576;
    assert RoundHalfEven(100 * 8388608, 1048576) == 800;
    assert NatToString(8) == "8";
  }

  /** One kibibyte and a half shows as "1.5 KB": trailing zeros of the hundredths are dropped. */
  lemma ConvertSizeExampleKilobytes()
    ensures ConvertSize(1536) == Success("1.5 KB")
  {
    UnitIndexUnique(1536, 1);
    assert RoundHalfEven(153600, 1024) == 150;
    assert NatToString(1) == "1";
    assert DigitChar(5) == '5';
    assert FloatText(150) == "1.5";
    assert PyIndex(UnitNames, 1) == Success("KB");
    assert ScaledHundredths(1536, 1) == 150;
    assert FloatText(150) + " " + "KB" == "1.5 KB";
  }

  /** One byte below a kibibyte stays in bytes and keeps one decimal: "1023.0 B". */
  lemma ConvertSizeExampleBytes()
    ensures ConvertSize(1023) == Success("1023.0 B")
  {
    UnitIndexUnique(1023, 0);
    assert RoundHalfEven(102300, 1) == 102300;
    assert NatToString(1) == "1";
    assert NatToString(10) == "10";
    assert NatToString(102) == "102";
    assert NatToString(1023) == "1023";
    assert FloatText(102300) == "1023.0";
    assert PyIndex(UnitNames, 0) == Success("B");
    assert ScaledHundredths(1023, 0) == 102300;
    assert FloatText(102300) + " " + "B" == "1023.0 B";
  }
}
