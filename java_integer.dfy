/** Java's `Integer.valueOf(String)` on decimal strings, and the decimal
    spelling of an integer it inverts. */
module JavaInteger {
  import opened Gtfs

  const MinInt: int := -0x8000_0000
  const MaxInt: int := 0x7fff_ffff

  predicate IsDigit(c: char)
  {
    '0' <= c <= '9'
  }

  predicate AllDigits(s: string)
  {
    forall i | 0 <= i < |s| :: IsDigit(s[i])
  }

  function DigitValue(c: char): (v: nat)
    requires IsDigit(c)
    ensures v < 10
  {
    c as int - '0' as int
  }

  function DigitChar(v: nat): (c: char)
    requires v < 10
    ensures IsDigit(c) && DigitValue(c) == v
  {
    ('0' as int + v) as char
  }

  /** The value of a string of decimal digits, most significant first. */
  function DigitsValue(s: string): nat
    requires AllDigits(s)
  {
    if s == [] then 0 else 10 * DigitsValue(s[..|s| - 1]) + DigitValue(s[|s| - 1])
  }

  /** The decimal spelling of a natural number, without leading zeros. */
  function NatDigits(n: nat): (s: string)
    ensures s != []
  {
    if n < 10 then [DigitChar(n)] else NatDigits(n / 10) + [DigitChar(n % 10)]
  }

  /** The decimal spelling of an integer, with a leading '-' when negative. */
  function Decimal(n: int): string
  {
    if n < 0 then "-" + NatDigits(-n) else NatDigits(n)
  }

  /** `Integer.valueOf(s)`: an optional sign followed by at least one digit,
      whose value fits in 32 bits; None where Java throws NumberFormatException. */
  function ValueOf(s: string): (r: Option<int>)
    ensures r.Some? ==> MinInt <= r.value <= MaxInt
    ensures r.Some? ==> s != [] && AllDigits(if s[0] == '-' || s[0] == '+' then s[1..] else s)
  {
    if s == [] then None
    else
      var digits := if s[0] == '-' || s[0] == '+' then s[1..] else s;
      if digits == [] || !AllDigits(digits) then None
      else
        var v: int := if s[0] == '-' then -(DigitsValue(digits) as int) else DigitsValue(digits);
        if MinInt <= v <= MaxInt then Some(v) else None
  }

  /** Reading back the decimal spelling of a natural number gives the number. */
  lemma {:induction false} NatDigitsValue(n: nat)
    ensures AllDigits(NatDigits(n)) && DigitsValue(NatDigits(n)) == n
  {
    if n >= 10 {
      NatDigitsValue(n / 10);
      var s := NatDigits(n);
      assert s[..|s| - 1] == NatDigits(n / 10);
    }
  }

  /** `Integer.valueOf` reads back every 32-bit integer from its decimal spelling. */
  lemma ValueOfDecimal(n: int)
    requires MinInt <= n <= MaxInt
    ensures ValueOf(Decimal(n)) == Some(n)
  {
    if n < 0 {
      NatDigitsValue(-n);
      assert ("-" + NatDigits(-n))[1..] == NatDigits(-n);
    } else {
      NatDigitsValue(n);
    }
  }

  /** A string holding a character that is neither a digit nor a leading sign is rejected. */
  lemma ValueOfRejectsNonDigit(s: string, i: nat)
    requires 0 < i < |s| && !IsDigit(s[i])
    ensures ValueOf(s) == None
  {
  }

  /** Leading zeros do not change the value of a digit string. */
  lemma {:induction false} LeadingZeroValue(s: string)
    requires AllDigits(s)
    ensures AllDigits("0" + s) && DigitsValue("0" + s) == DigitsValue(s)
  {
    if s != [] {
      LeadingZeroValue(s[..|s| - 1]);
      assert ("0" + s)[..|"0" + s| - 1] == "0" + s[..|s| - 1];
    }
  }

  /** The value `Integer.valueOf` gives a digit string with an optional sign:
      its digits' value, negated after '-', or NumberFormatException when that
      value does not fit in 32 bits. */
  lemma ValueOfSignedDigits(digits: string)
    requires digits != [] && AllDigits(digits)
    ensures ValueOf(digits) == (if DigitsValue(digits) <= MaxInt then Some(DigitsValue(digits)) else None)
    ensures ValueOf("+" + digits) == ValueOf(digits)
    ensures ValueOf("-" + digits) == (if DigitsValue(digits) <= -MinInt then Some(-(DigitsValue(digits) as int)) else None)
  {
    assert ("+" + digits)[1..] == digits;
    assert ("-" + digits)[1..] == digits;
    assert IsDigit(digits[0]);
  }

  /** Spellings beyond 32 bits are rejected, whatever their sign. */
  lemma ValueOfRejectsOverflow(digits: string)
    requires digits != [] && AllDigits(digits) && DigitsValue(digits) > MaxInt
    ensures ValueOf(digits) == None && ValueOf("+" + digits) == None
    ensures DigitsValue(digits) > -MinInt ==> ValueOf("-" + digits) == None
  {
    ValueOfSignedDigits(digits);
  }

  /** A plus sign, leading zeros and a negative zero are read as Java reads them. */
  lemma ValueOfSignAndZeroExamples()
    ensures ValueOf("+7") == Some(7)
    ensures ValueOf("007") == Some(7)
    ensures ValueOf("-0") == Some(0)
  {
    assert DigitsValue("7") == 7;
    ValueOfSignedDigits("7");
    assert "+7" == "+" + "7";
    LeadingZeroValue("7");
    LeadingZeroValue("07");
    assert "007" == "0" + ("0" + "7");
    ValueOfSignedDigits("007");
    assert DigitsValue("0") == 0;
    ValueOfSignedDigits("0");
    assert "-0" == "-" + "0";
  }

  /** Appending a digit multiplies the value by ten and adds the digit. */
  lemma DigitsValueAppend(s: string, c: char)
    requires AllDigits(s) && IsDigit(c)
    ensures AllDigits(s + [c]) && DigitsValue(s + [c]) == 10 * DigitsValue(s) + DigitValue(c)
  {
    assert (s + [c])[..|s|] == s;
  }

  /** One past the largest int is rejected. */
  lemma ValueOfMaxIntPlusOne()
    ensures ValueOf("2147483648") == None
  {
    assert DigitsValue("2") == 2;
    DigitsValueAppend("2", '1');
    assert "21" == "2" + ['1'];
    DigitsValueAppend("21", '4');
    assert "214" == "21" + ['4'];
    DigitsValueAppend("214", '7');
    assert "2147" == "214" + ['7'];
    DigitsValueAppend("2147", '4');
    assert "21474" == "2147" + ['4'];
    DigitsValueAppend("21474", '8');
    assert "214748" == "21474" + ['8'];
    DigitsValueAppend("214748", '3');
    assert "2147483" == "214748" + ['3'];
    DigitsValueAppend("2147483", '6');
    assert "21474836" == "2147483" + ['6'];
    DigitsValueAppend("21474836", '4');
    assert "214748364" == "21474836" + ['4'];
    DigitsValueAppend("214748364", '8');
    assert "2147483648" == "214748364" + ['8'];
    assert DigitsValue("2147483648") == 2147483648;
    ValueOfRejectsOverflow("2147483648");
  }
}
