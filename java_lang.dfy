/**
 * The pieces of the Java runtime that the report parser leans on: an optional
 * value, an exception raised part-way through a computation, and
 * `Integer.parseInt` for radix 10, together with `Integer.toString`, of which
 * it is a left inverse.
 */
module JavaLang {

  datatype Option<+T> = None | Some(value: T)

  /** The unchecked exceptions the parser can raise. */
  datatype Exception =
    | NullPointer               // a method called on a `null` node
    | NumberFormat(input: string) // `Integer.parseInt` rejected `input`

  /** The outcome of a Java call: a value, or the exception it threw. */
  datatype Try<+T> = Ok(value: T) | Thrown(error: Exception)

  const MinInt: int := -0x8000_0000
  const MaxInt: int := 0x7fff_ffff

  predicate InInt(n: int) { MinInt <= n <= MaxInt }

  predicate IsDigit(c: char) { '0' <= c <= '9' }

  predicate AllDigits(s: string) { forall i :: 0 <= i < |s| ==> IsDigit(s[i]) }

  function DigitValue(c: char): nat
    requires IsDigit(c)
  {
    (c as int) - ('0' as int)
  }

  /** The value of a string of decimal digits, most significant first. */
  function Digits(s: string): nat
    requires AllDigits(s)
  {
    if s == [] then 0 else Digits(s[..|s| - 1]) * 10 + DigitValue(s[|s| - 1])
  }

  /**
   * `Integer.parseInt(s)`: an optional '-' or '+' followed by at least one
   * digit, whose value fits in a 32-bit `int`; anything else (the empty
   * string, a lone sign, a space, a letter, a value out of range) throws
   * `NumberFormatException`, here `None`.
   */
  function ParseInt(s: string): (r: Option<int>)
    ensures r.Some? ==> InInt(r.value)
    ensures r.Some? ==> |s| > 0
  {
    if |s| == 0 then None
    else if s[0] == '-' || s[0] == '+' then
      if |s| == 1 || !AllDigits(s[1..]) then None
      else
        var magnitude: int := Digits(s[1..]);
        var v := if s[0] == '-' then -magnitude else magnitude;
        if InInt(v) then Some(v) else None
    else if AllDigits(s) && Digits(s) <= MaxInt then Some(Digits(s))
    else None
  }

  function DigitChar(d: nat): (c: char)
    requires d < 10
    ensures IsDigit(c) && DigitValue(c) == d
  {
    ('0' as int + d) as char
  }

  /** The shortest decimal numeral of `n`. */
  function Numeral(n: nat): (s: string)
    ensures |s| > 0 && AllDigits(s)
  {
    if n < 10 then [DigitChar(n)] else Numeral(n / 10) + [DigitChar(n % 10)]
  }

  /** `Integer.toString(n)`: a '-' for negative values, then the numeral. */
  function ToString(n: int): (s: string)
    ensures |s| > 0
  {
    if n < 0 then "-" + Numeral(-n) else Numeral(n)
  }

  lemma {:induction false} DigitsOfNumeral(n: nat)
    ensures Digits(Numeral(n)) == n
  {
    if n >= 10 {
      DigitsOfNumeral(n / 10);
      var s := Numeral(n);
      assert s[..|s| - 1] == Numeral(n / 10);
    }
  }

  /** `Integer.parseInt` inverts `Integer.toString` on every 32-bit value. */
  lemma ParseIntOfToString(n: int)
    requires InInt(n)
    ensures ParseInt(ToString(n)) == Some(n)
  {
    var s := ToString(n);
    if n < 0 {
      DigitsOfNumeral(-n);
      assert s[1..] == Numeral(-n);
    } else {
      DigitsOfNumeral(n);
      assert s[0] != '-' && s[0] != '+';
    }
  }

  /** Leading zeros do not change the value of a numeral. */
  lemma {:induction false} DigitsLeadingZero(ds: string)
    requires AllDigits(ds)
    ensures AllDigits("0" + ds) && Digits("0" + ds) == Digits(ds)
  {
    var s := "0" + ds;
    if ds == [] {
      assert s[..|s| - 1] == [];
    } else {
      assert s[..|s| - 1] == "0" + ds[..|ds| - 1];
      DigitsLeadingZero(ds[..|ds| - 1]);
    }
  }

  /** An unsigned numeral gives its value when that is at most 2^31 - 1, and is rejected above. */
  lemma ParseIntUnsigned(ds: string)
    requires |ds| > 0 && AllDigits(ds)
    ensures Digits(ds) <= MaxInt ==> ParseInt(ds) == Some(Digits(ds))
    ensures Digits(ds) > MaxInt ==> ParseInt(ds) == None
  {
    assert IsDigit(ds[0]);
  }

  /** A leading '+' is accepted and changes nothing. */
  lemma ParseIntPlusSign(ds: string)
    requires |ds| > 0 && AllDigits(ds)
    ensures ParseInt("+" + ds) == ParseInt(ds)
  {
    assert ("+" + ds)[1..] == ds;
    ParseIntUnsigned(ds);
  }

  /** A leading '-' negates the value, which may then reach -2^31 but no further. */
  lemma ParseIntMinusSign(ds: string)
    requires |ds| > 0 && AllDigits(ds)
    ensures Digits(ds) <= -MinInt ==> ParseInt("-" + ds) == Some(-(Digits(ds) as int))
    ensures Digits(ds) > -MinInt ==> ParseInt("-" + ds) == None
  {
    var s := "-" + ds;
    assert s[0] == '-' && |s| > 1 && s[1..] == ds;
  }

  /** Leading zeros are accepted and change nothing, after a sign too. */
  lemma ParseIntLeadingZero(ds: string)
    requires |ds| > 0 && AllDigits(ds)
    ensures ParseInt("0" + ds) == ParseInt(ds)
    ensures ParseInt("-0" + ds) == ParseInt("-" + ds)
    ensures ParseInt("+0" + ds) == ParseInt("+" + ds)
  {
    DigitsLeadingZero(ds);
    ParseIntUnsigned(ds);
    ParseIntUnsigned("0" + ds);
    ParseIntMinusSign(ds);
    assert "-0" + ds == "-" + ("0" + ds);
    ParseIntMinusSign("0" + ds);
    ParseIntPlusSign(ds);
    assert "+0" + ds == "+" + ("0" + ds);
    ParseIntPlusSign("0" + ds);
  }

  /** Signs, leading zeros and the empty string, as `Integer.parseInt` treats them. */
  lemma ParseIntSignsAndZeros()
    ensures ParseInt("+5") == Some(5) && ParseInt("007") == Some(7) && ParseInt("-0") == Some(0)
    ensures ParseInt("") == None && ParseInt("-") == None && ParseInt("+") == None
  {
    ParseIntPlusSign("5");
    ParseIntUnsigned("5");
    assert "+" + "5" == "+5";
    ParseIntLeadingZero("07");
    ParseIntLeadingZero("7");
    assert "0" + "07" == "007" && "0" + "7" == "07";
    ParseIntUnsigned("7");
    ParseIntMinusSign("0");
    assert "-" + "0" == "-0";
  }

  /** Appending a digit multiplies the value by ten and adds the digit. */
  lemma DigitsSnoc(ds: string, c: char)
    requires AllDigits(ds) && IsDigit(c)
    ensures AllDigits(ds + [c]) && Digits(ds + [c]) == Digits(ds) * 10 + DigitValue(c)
  {
    assert (ds + [c])[..|ds|] == ds;
  }

  /** The value of the ten-digit numerals at the ends of the `int` range. */
  lemma DigitsAtIntRange(last: char)
    requires IsDigit(last)
    ensures AllDigits("214748364" + [last])
    ensures Digits("214748364" + [last]) == 2147483640 + DigitValue(last)
  {
    DigitsSnoc("", '2');
    assert "" + ['2'] == "2";
    DigitsSnoc("2", '1');
    assert "2" + ['1'] == "21";
    DigitsSnoc("21", '4');
    assert "21" + ['4'] == "214";
    DigitsSnoc("214", '7');
    assert "214" + ['7'] == "2147";
    DigitsSnoc("2147", '4');
    assert "2147" + ['4'] == "21474";
    DigitsSnoc("21474", '8');
    assert "21474" + ['8'] == "214748";
    DigitsSnoc("214748", '3');
    assert "214748" + ['3'] == "2147483";
    DigitsSnoc("2147483", '6');
    assert "2147483" + ['6'] == "21474836";
    DigitsSnoc("21474836", '4');
    assert "21474836" + ['4'] == "214748364";
    DigitsSnoc("214748364", last);
  }

  /** The two ends of the `int` range: the largest magnitudes accepted, and the next ones rejected. */
  lemma ParseIntRangeEnds()
    ensures ParseInt("2147483647") == Some(MaxInt) && ParseInt("2147483648") == None
    ensures ParseInt("-2147483648") == Some(MinInt) && ParseInt("-2147483649") == None
  {
    DigitsAtIntRange('7');
    DigitsAtIntRange('8');
    DigitsAtIntRange('9');
    assert "214748364" + ['7'] == "2147483647";
    assert "214748364" + ['8'] == "2147483648";
    assert "214748364" + ['9'] == "2147483649";
    assert "-" + "2147483648" == "-2147483648";
    assert "-" + "2147483649" == "-2147483649";
    ParseIntUnsigned("2147483647");
    ParseIntUnsigned("2147483648");
    ParseIntMinusSign("2147483648");
    ParseIntMinusSign("2147483649");
  }

  /** A string holding a character that is neither a digit nor a leading sign is rejected. */
  lemma ParseIntRejectsNonDigit(s: string, i: nat)
    requires i < |s| && !IsDigit(s[i])
    requires i > 0 || (s[0] != '-' && s[0] != '+')
    ensures ParseInt(s) == None
  {
  }
}
