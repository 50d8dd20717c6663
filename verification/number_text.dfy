/** Decimal text of integers, and the dashboard's sales formatter, which puts a comma
    after every digit followed by a positive multiple of three digits. */
module NumberText {

  predicate IsDigit(c: char)
  {
    '0' <= c <= '9'
  }

  predicate AllDigits(s: string)
  {
    forall i | 0 <= i < |s| :: IsDigit(s[i])
  }

  function DigitChar(d: int): (c: char)
    requires 0 <= d < 10
    ensures IsDigit(c)
  {
    "0123456789"[d]
  }

  function DigitValue(c: char): int
  {
    c as int - '0' as int
  }

  /** The decimal digits of `n`, without leading zeros. */
  function Digits(n: nat): (s: string)
    ensures |s| >= 1 && AllDigits(s)
    ensures |s| > 1 ==> s[0] != '0'
  {
    if n < 10 then [DigitChar(n)] else Digits(n / 10) + [DigitChar(n % 10)]
  }

  /** Reads a string of digits back as a number. */
  function ParseDigits(s: string): int
  {
    if |s| == 0 then 0 else 10 * ParseDigits(s[..|s| - 1]) + DigitValue(s[|s| - 1])
  }

  /** The digits denote the number. */
  lemma {:induction false} DigitsRoundTrip(n: nat)
    ensures ParseDigits(Digits(n)) == n
  {
    if n >= 10 {
      var s := Digits(n);
      assert s[..|s| - 1] == Digits(n / 10);
      DigitsRoundTrip(n / 10);
    }
  }

  /** Numbers under 1000 have at most three digits. */
  lemma DigitsOfSmall(n: nat)
    requires n < 1000
    ensures |Digits(n)| <= 3
  {
    if n >= 10 {
      var m := n / 10;
      assert |Digits(n)| == |Digits(m)| + 1;
      if m >= 10 {
        assert m / 10 < 10;
        assert |Digits(m)| == |Digits(m / 10)| + 1;
      }
    }
  }

  /** `Number.prototype.toString` of an integer. */
  function ToDecimal(v: int): (s: string)
    ensures |s| >= 1
    ensures v >= 0 ==> s == Digits(v)
    ensures v < 0 ==> s == "-" + Digits(-v)
  {
    if v < 0 then "-" + Digits(-v) else Digits(v)
  }

  /** The replacement `/(\d)(?=(\d{3})+(?!\d))/g -> '$1,'` on a run of digits that ends
      the string: the leading digit is followed by a comma iff the number of digits to
      its right is a positive multiple of three. */
  function Separate(ds: string): (r: string)
    ensures |r| >= |ds|
    ensures |ds| > 0 ==> r[0] == ds[0]
    ensures |ds| == 0 ==> r == ""
  {
    if |ds| == 0 then ""
    else [ds[0]] + (if |ds| - 1 > 0 && (|ds| - 1) % 3 == 0 then "," else "") + Separate(ds[1..])
  }

  /** The reference grouping: the last three digits are split off behind a comma until
      at most three remain. */
  function Grouped(ds: string): string
    decreases |ds|
  {
    if |ds| <= 3 then ds else Grouped(ds[..|ds| - 3]) + "," + ds[|ds| - 3..]
  }

  lemma {:induction false} SeparateShort(ds: string)
    requires |ds| <= 3
    ensures Separate(ds) == ds
  {
    if |ds| > 0 {
      SeparateShort(ds[1..]);
      assert [ds[0]] + ds[1..] == ds;
    }
  }

  /** The comma, if any, that follows a digit with `n` digits to its right. */
  function Mark(n: int): string
  {
    if n > 0 && n % 3 == 0 then "," else ""
  }

  lemma SeparateCons(ds: string)
    requires |ds| > 0
    ensures Separate(ds) == [ds[0]] + Mark(|ds| - 1) + Separate(ds[1..])
  {
  }

  /** Digits to the right in whole blocks of three do not change whether a comma follows. */
  lemma MarkShift(n: int, k: int)
    requires n >= 1 && k % 3 == 0 && k >= 0
    ensures Mark(n + k) == Mark(n)
  {
  }

  lemma Regroup(x: string, y: string, z: string)
    ensures x + (y + "," + z) == (x + y) + "," + z
  {
  }

  /** A block of a multiple of three digits behind `a` puts a comma after `a`. */
  lemma {:induction false} SeparateAppend(a: string, b: string)
    requires |a| >= 1 && |b| >= 3 && |b| % 3 == 0
    ensures Separate(a + b) == Separate(a) + "," + Separate(b)
    decreases |a|
  {
    var ab := a + b;
    assert ab[0] == a[0] && ab[1..] == a[1..] + b;
    SeparateCons(ab);
    SeparateCons(a);
    if |a| == 1 {
      assert a[1..] + b == b;
      assert Mark(|ab| - 1) == ",";
      assert Separate(a[1..]) == "";
    } else {
      MarkShift(|a| - 1, |b|);
      SeparateAppend(a[1..], b);
      Regroup([a[0]] + Mark(|a| - 1), Separate(a[1..]), Separate(b));
    }
  }

  /** A run of `n` digits gets `(n - 1) / 3` commas. */
  lemma {:induction false} SeparateLength(ds: string)
    requires |ds| > 0
    ensures |Separate(ds)| == |ds| + (|ds| - 1) / 3
    decreases |ds|
  {
    SeparateCons(ds);
    if |ds| > 1 {
      SeparateLength(ds[1..]);
    }
  }

  /** The regex's per-digit rule and the reference grouping agree on every digit run. */
  lemma {:induction false} SeparateIsGrouped(ds: string)
    ensures Separate(ds) == Grouped(ds)
    decreases |ds|
  {
    if |ds| <= 3 {
      SeparateShort(ds);
    } else {
      var head := ds[..|ds| - 3];
      var tail := ds[|ds| - 3..];
      assert head + tail == ds;
      SeparateAppend(head, tail);
      SeparateIsGrouped(head);
      SeparateShort(tail);
    }
  }

  function StripCommas(s: string): (r: string)
    ensures forall i | 0 <= i < |r| :: r[i] != ','
  {
    if |s| == 0 then "" else (if s[0] == ',' then "" else [s[0]]) + StripCommas(s[1..])
  }

  lemma StripCommasAppend(a: string, b: string)
    ensures StripCommas(a + b) == StripCommas(a) + StripCommas(b)
  {
    if |a| == 0 {
      assert a + b == b;
    } else {
      assert (a + b)[0] == a[0];
      assert (a + b)[1..] == a[1..] + b;
      StripCommasAppend(a[1..], b);
    }
  }

  /** Deleting the inserted commas gives the digits back. */
  lemma {:induction false} StripSeparate(ds: string)
    requires AllDigits(ds)
    ensures StripCommas(Separate(ds)) == ds
  {
    if |ds| > 0 {
      var c := Mark(|ds| - 1);
      SeparateCons(ds);
      StripCommasAppend([ds[0]] + c, Separate(ds[1..]));
      StripCommasAppend([ds[0]], c);
      assert IsDigit(ds[0]);
      assert StripCommas([ds[0]]) == [ds[0]];
      assert StripCommas(c) == "";
      assert AllDigits(ds[1..]) by {
        forall i | 0 <= i < |ds[1..]|
          ensures IsDigit(ds[1..][i])
        {
          assert ds[1..][i] == ds[i + 1];
        }
      }
      StripSeparate(ds[1..]);
      assert [ds[0]] + ds[1..] == ds;
    }
  }

  /** A comma-separated digit string whose first group has one to three characters and
      every later group exactly three. */
  ghost predicate WellGrouped(s: string)
    decreases |s|
  {
    if |s| <= 3 then |s| >= 1 && forall i | 0 <= i < |s| :: s[i] != ','
    else
      && |s| >= 5
      && s[|s| - 4] == ','
      && (forall i | |s| - 3 <= i < |s| :: s[i] != ',')
      && WellGrouped(s[..|s| - 4])
  }

  lemma {:induction false} GroupedIsWellGrouped(ds: string)
    requires |ds| >= 1 && AllDigits(ds)
    ensures WellGrouped(Grouped(ds))
    decreases |ds|
  {
    if |ds| > 3 {
      var head := ds[..|ds| - 3];
      var g := Grouped(head);
      GroupedIsWellGrouped(head);
      var s := Grouped(ds);
      assert s == g + "," + ds[|ds| - 3..];
      assert |g| >= 1;
      assert s[..|s| - 4] == g;
    }
  }

  /** The sales chart's `formatNumber` on an integer: a dollar sign, then the value's
      text with thousands separators. */
  function FormatSales(v: int): (r: string)
    ensures |r| >= 2 && r[0] == '$'
    ensures r[1] == '-' <==> v < 0
  {
    "$" + (if v < 0 then "-" else "") + Separate(Digits(if v < 0 then -v else v))
  }

  /** Deleting the commas from the sales text leaves `'$'` and `value.toString()`. */
  lemma SalesWithoutCommas(v: int)
    ensures StripCommas(FormatSales(v)) == "$" + ToDecimal(v)
  {
    var ds := Digits(if v < 0 then -v else v);
    var sign := if v < 0 then "-" else "";
    StripSeparate(ds);
    assert FormatSales(v) == ("$" + sign) + Separate(ds);
    StripCommasAppend("$" + sign, Separate(ds));
    StripCommasAppend("$", sign);
    assert StripCommas("$") == "$";
    assert sign == "-" ==> StripCommas(sign) == "-";
    assert sign == "" ==> StripCommas(sign) == "";
  }

  /** The digits of the sales text are well grouped. */
  lemma SalesGrouping(v: int)
    ensures WellGrouped(Separate(Digits(if v < 0 then -v else v)))
  {
    var ds := Digits(if v < 0 then -v else v);
    SeparateIsGrouped(ds);
    GroupedIsWellGrouped(ds);
  }

  /** Values of magnitude under 1000 get no comma at all. */
  lemma SmallSalesHaveNoComma(v: int)
    requires -1000 < v < 1000
    ensures FormatSales(v) == "$" + ToDecimal(v)
  {
    var m := if v < 0 then -v else v;
    DigitsOfSmall(m);
    SeparateShort(Digits(m));
    assert Separate(Digits(m)) == Digits(m);
  }

  /** One more decimal place appends one digit. */
  lemma DigitsStep(m: nat, d: nat)
    requires 1 <= m && d < 10
    ensures Digits(10 * m + d) == Digits(m) + [DigitChar(d)]
  {
    var n := 10 * m + d;
    assert n / 10 == m && n % 10 == d;
  }

  lemma DigitsExample()
    ensures Digits(1234567) == "1234567"
  {
    assert Digits(1) == "1";
    DigitsStep(1, 2);
    DigitsStep(12, 3);
    DigitsStep(123, 4);
    DigitsStep(1234, 5);
    DigitsStep(12345, 6);
    DigitsStep(123456, 7);
    assert DigitChar(2) == '2' && DigitChar(3) == '3' && DigitChar(4) == '4';
    assert DigitChar(5) == '5' && DigitChar(6) == '6' && DigitChar(7) == '7';
  }

  lemma GroupedExample()
    ensures Grouped("1234567") == "1,234,567"
  {
    assert "1234567"[..4] == "1234" && "1234567"[4..] == "567";
    assert "1234"[..1] == "1" && "1234"[1..] == "234";
    assert Grouped("1234") == "1,234";
  }

  /** `formatNumber(1234567)` is `$1,234,567`. */
  lemma SalesExample()
    ensures FormatSales(1234567) == "$1,234,567"
  {
    DigitsExample();
    SeparateIsGrouped("1234567");
    GroupedExample();
    assert FormatSales(1234567) == "$" + Separate("1234567");
  }
}
