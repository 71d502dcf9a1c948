/** The storage key of a day: `formatDate`, which writes the year in
    decimal and the month and day zero-padded to two digits, and the parser
    that reads such a key back. */
module DateKeys {

  import opened Results
  import opened Text
  import opened Dates

  predicate IsDigit(c: char)
  {
    '0' <= c <= '9'
  }

  predicate AllDigits(s: string)
  {
    forall k :: 0 <= k < |s| ==> IsDigit(s[k])
  }

  function DigitChar(n: int): (c: char)
    requires 0 <= n < 10
    ensures IsDigit(c)
  {
    ('0' as int + n) as char
  }

  function DigitValue(c: char): (n: int)
    requires IsDigit(c)
    ensures 0 <= n < 10 && DigitChar(n) == c
  {
    c as int - '0' as int
  }

  /** Decimal digits with no superfluous leading zero, as `Number.prototype.toString` writes a natural number. */
  predicate Canonical(s: string)
  {
    s != [] && AllDigits(s) && (s[0] == '0' ==> |s| == 1)
  }

  /** The decimal numeral of `n`. */
  function NatToDecimal(n: nat): (s: string)
    ensures Canonical(s) && (s[0] == '0' <==> n == 0)
    ensures |s| == 1 <==> n < 10
    ensures |s| == 2 <==> 10 <= n < 100
  {
    if n < 10 then [DigitChar(n)]
    else
      var s := NatToDecimal(n / 10) + [DigitChar(n % 10)];
      assert s[0] == NatToDecimal(n / 10)[0];
      s
  }

  /** The number a string of digits denotes. */
  function ParseNat(s: string): nat
    requires AllDigits(s)
  {
    if s == [] then 0 else ParseNat(s[..|s| - 1]) * 10 + DigitValue(s[|s| - 1])
  }

  lemma {:induction false} ParseNatToDecimal(n: nat)
    ensures ParseNat(NatToDecimal(n)) == n
  {
    if n >= 10 {
      var s := NatToDecimal(n);
      assert s[..|s| - 1] == NatToDecimal(n / 10);
      ParseNatToDecimal(n / 10);
    }
  }

  lemma {:induction false} NatToDecimalParse(s: string)
    requires Canonical(s)
    ensures NatToDecimal(ParseNat(s)) == s
    decreases |s|
  {
    if |s| > 1 {
      var p := s[..|s| - 1];
      assert p[0] == s[0];
      NatToDecimalParse(p);
    } else {
      assert s == [DigitChar(DigitValue(s[0]))];
    }
  }

  /** `${n}` for an integer: a minus sign before the numeral of a negative one. */
  function IntToDecimal(i: int): (s: string)
    ensures s != [] && (s[0] == '-' <==> i < 0)
    ensures i < 0 ==> Canonical(s[1..]) && s[1] != '0'
    ensures i >= 0 ==> Canonical(s)
  {
    if i < 0 then "-" + NatToDecimal(-i) else NatToDecimal(i)
  }

  /** `s.padStart(2, '0')`. */
  function PadStart2(s: string): (r: string)
    ensures |r| == (if |s| < 2 then 2 else |s|)
    ensures r[|r| - |s|..] == s
    ensures forall i :: 0 <= i < |r| - |s| ==> r[i] == '0'
  {
    if |s| >= 2 then s
    else if |s| == 1 then "0" + s
    else "00"
  }

  /** The two-digit, zero-padded numeral of `n`. */
  function TwoDigits(n: int): (s: string)
    requires 0 <= n < 100
    ensures |s| == 2 && AllDigits(s)
  {
    [DigitChar(n / 10), DigitChar(n % 10)]
  }

  /** `formatDate`: the year, then the 1-based month and the day, each
      zero-padded to exactly two characters, separated by hyphens. */
  function FormatDate(d: Date): (key: string)
    requires ValidDate(d)
    ensures key == IntToDecimal(d.year) + "-" + TwoDigits(d.month + 1) + "-" + TwoDigits(d.day)
  {
    PaddedNumeral(d.month + 1);
    PaddedNumeral(d.day);
    IntToDecimal(d.year) + "-" + PadStart2(NatToDecimal(d.month + 1)) + "-" + PadStart2(NatToDecimal(d.day))
  }

  /** Padding the numeral of a number below 100 gives its two-digit form. */
  lemma PaddedNumeral(n: nat)
    requires n < 100
    ensures PadStart2(NatToDecimal(n)) == TwoDigits(n)
  {
    var s := NatToDecimal(n);
    if n >= 10 {
      assert s == NatToDecimal(n / 10) + [DigitChar(n % 10)];
    }
  }

  /** The year part of a key: a canonical numeral, or a minus sign before
      the canonical numeral of a positive number. */
  function ParseYear(s: string): (r: Option<int>)
  {
    if Canonical(s) then Some(ParseNat(s))
    else if s != [] && s[0] == '-' && Canonical(s[1..]) && s[1] != '0' then
      var v: int := ParseNat(s[1..]);
      Some(-v)
    else None
  }

  /** The date named by the three fields of a key, if it is a real one. */
  function ParseFields(ys: string, mm: string, dd: string): Option<Date>
  {
    if !AllDigits(mm) || !AllDigits(dd) then None
    else match ParseYear(ys)
      case None => None
      case Some(y) =>
        var d := Date(y, ParseNat(mm) - 1, ParseNat(dd));
        if ValidDate(d) then Some(d) else None
  }

  /** Reads a key `year-MM-DD` back into the date it names; `None` for a
      string that is not the key of a real calendar day. */
  function ParseDateKey(key: string): Option<Date>
  {
    var n := |key|;
    if n < 7 || key[n - 6] != '-' || key[n - 3] != '-' then None
    else ParseFields(key[..n - 6], key[n - 5..n - 3], key[n - 2..])
  }

  lemma ParseTwo(s: string)
    requires |s| == 2 && AllDigits(s)
    ensures ParseNat(s) == DigitValue(s[0]) * 10 + DigitValue(s[1])
  {
    var p := s[..1];
    assert s[..|s| - 1] == p;
    assert ParseNat(p) == DigitValue(s[0]) by {
      assert p[..0] == [];
    }
  }

  lemma TwoDigitsOfParse(s: string)
    requires |s| == 2 && AllDigits(s)
    ensures ParseNat(s) < 100 && TwoDigits(ParseNat(s)) == s
  {
    ParseTwo(s);
  }

  lemma DecimalOfParsedYear(s: string, y: int)
    requires ParseYear(s) == Some(y)
    ensures IntToDecimal(y) == s
  {
    if Canonical(s) {
      NatToDecimalParse(s);
    } else {
      var t := s[1..];
      var v: int := ParseNat(t);
      NatToDecimalParse(t);
      assert t[0] == s[1];
      assert y == -v && v > 0;
      assert IntToDecimal(y) == "-" + NatToDecimal(v);
      assert s == "-" + t;
    }
  }

  lemma TwoDigitsParse(n: int)
    requires 0 <= n < 100
    ensures ParseNat(TwoDigits(n)) == n
  {
    ParseTwo(TwoDigits(n));
  }

  lemma ParseNegativeYear(y: int)
    requires y < 0
    ensures ParseYear(IntToDecimal(y)) == Some(y)
  {
    var t := NatToDecimal(-y);
    var s := "-" + t;
    assert s == IntToDecimal(y);
    assert s[1..] == t && s[0] == '-' && s[1] == t[0];
    assert !AllDigits(s) by {
      assert !IsDigit(s[0]);
    }
    ParseNatToDecimal(-y);
    assert t[0] != '0';
  }

  /** The year part of every key reads back as the year. */
  lemma ParseYearOfDecimal(y: int)
    ensures ParseYear(IntToDecimal(y)) == Some(y)
  {
    if y < 0 {
      ParseNegativeYear(y);
    } else {
      ParseNatToDecimal(y);
    }
  }

  /** Where the three fields sit in a key. */
  lemma KeyLayout(ys: string, mm: string, dd: string)
    requires |mm| == 2 && |dd| == 2
    ensures var key := ys + "-" + mm + "-" + dd;
            var n := |key|;
            && n == |ys| + 6
            && key[..n - 6] == ys && key[n - 6] == '-'
            && key[n - 5..n - 3] == mm && key[n - 3] == '-'
            && key[n - 2..] == dd
  {
  }

  /** A key assembled from a non-empty year and two two-character fields is
      parsed field by field. */
  lemma ParseAssembledKey(ys: string, mm: string, dd: string)
    requires ys != [] && |mm| == 2 && |dd| == 2
    ensures ParseDateKey(ys + "-" + mm + "-" + dd) == ParseFields(ys, mm, dd)
  {
    KeyLayout(ys, mm, dd);
  }

  /** Every valid date's key reads back as that date. */
  lemma ParseFormatDate(d: Date)
    requires ValidDate(d)
    ensures ParseDateKey(FormatDate(d)) == Some(d)
  {
    var ys, mm, dd := IntToDecimal(d.year), TwoDigits(d.month + 1), TwoDigits(d.day);
    var key := FormatDate(d);
    assert key == ys + "-" + mm + "-" + dd;
    ParseAssembledKey(ys, mm, dd);
    ParseFieldsOfDate(d);
    assert ParseDateKey(key) == ParseFields(ys, mm, dd);
  }

  /** The three fields of a valid date's key read back as that date. */
  lemma ParseFieldsOfDate(d: Date)
    requires ValidDate(d)
    ensures ParseFields(IntToDecimal(d.year), TwoDigits(d.month + 1), TwoDigits(d.day)) == Some(d)
  {
    ParseYearOfDecimal(d.year);
    TwoDigitsParse(d.month + 1);
    TwoDigitsParse(d.day);
  }

  /** A key is only ever produced for one date. */
  lemma FormatDateInjective(a: Date, b: Date)
    requires ValidDate(a) && ValidDate(b) && FormatDate(a) == FormatDate(b)
    ensures a == b
  {
    ParseFormatDate(a);
    ParseFormatDate(b);
  }

  /** Every string that parses is the key of the date it parses to, so keys and
      real calendar days correspond one to one. */
  lemma FormatParsedKey(key: string, d: Date)
    requires ParseDateKey(key) == Some(d)
    ensures ValidDate(d) && FormatDate(d) == key
  {
    var n := |key|;
    var ys, mm, dd := key[..n - 6], key[n - 5..n - 3], key[n - 2..];
    assert key == ys + "-" + mm + "-" + dd;
    DecimalOfParsedYear(ys, d.year);
    TwoDigitsOfParse(mm);
    TwoDigitsOfParse(dd);
  }

  // ---------------------------------------------------------------------
  // Key order against calendar order.

  /** `a` is an earlier day than `b`. */
  predicate Earlier(a: Date, b: Date)
  {
    a.year < b.year || (a.year == b.year && (a.month < b.month || (a.month == b.month && a.day < b.day)))
  }

  /** Strings of equal length compare by their first difference. */
  lemma {:induction false} BelowConcat(a: string, b: string, c: string, d: string)
    requires |a| == |c|
    ensures Below(a + b, c + d) <==> Below(a, c) || (a == c && Below(b, d))
  {
    if a == [] {
      assert a + b == b && c + d == d;
    } else {
      assert (a + b)[0] == a[0] && (c + d)[0] == c[0];
      assert (a + b)[1..] == a[1..] + b && (c + d)[1..] == c[1..] + d;
      BelowConcat(a[1..], b, c[1..], d);
      if a[0] == c[0] && a[1..] == c[1..] {
        assert a == c;
      }
      if a == c {
        assert a[1..] == c[1..];
      }
    }
  }

  /** On digit strings of one length the string order is the numeric order. */
  lemma {:induction false} BelowIsNumericOrder(a: string, b: string)
    requires AllDigits(a) && AllDigits(b) && |a| == |b|
    ensures Below(a, b) <==> ParseNat(a) < ParseNat(b)
    ensures a == b <==> ParseNat(a) == ParseNat(b)
    decreases |a|
  {
    if a != [] {
      var n := |a|;
      var a', b' := a[..n - 1], b[..n - 1];
      assert a == a' + [a[n - 1]] && b == b' + [b[n - 1]];
      BelowConcat(a', [a[n - 1]], b', [b[n - 1]]);
      BelowIsNumericOrder(a', b');
      if a' != b' { BelowTotal(a', b'); }
      BelowIrreflexive(a');
      if Below(a', b') { BelowAsymmetric(a', b'); }
    }
  }

  lemma FourDigitYear(y: int)
    requires 1000 <= y <= 9999
    ensures |IntToDecimal(y)| == 4
  {
    assert IntToDecimal(y) == NatToDecimal(y / 10) + [DigitChar(y % 10)];
    assert NatToDecimal(y / 10) == NatToDecimal(y / 100) + [DigitChar(y / 10 % 10)];
  }

  /** Keys whose fields have matching widths compare field by field. */
  lemma KeyFieldOrder(ya: string, ma: string, da: string, yb: string, mb: string, db: string)
    requires |ya| == |yb| && |ma| == |mb|
    ensures Below(ya + "-" + ma + "-" + da, yb + "-" + mb + "-" + db)
        <==> Below(ya, yb) || (ya == yb && (Below(ma, mb) || (ma == mb && Below(da, db))))
  {
    var ta, tb := "-" + (ma + ("-" + da)), "-" + (mb + ("-" + db));
    assert ya + "-" + ma + "-" + da == ya + ta;
    assert yb + "-" + mb + "-" + db == yb + tb;
    BelowConcat(ya, ta, yb, tb);
    BelowConcat("-", ma + ("-" + da), "-", mb + ("-" + db));
    BelowConcat(ma, "-" + da, mb, "-" + db);
    BelowConcat("-", da, "-", db);
    BelowIrreflexive("-");
  }

  /** Two-digit fields compare as their numbers do. */
  lemma TwoDigitsOrder(i: int, j: int)
    requires 0 <= i < 100 && 0 <= j < 100
    ensures Below(TwoDigits(i), TwoDigits(j)) <==> i < j
    ensures TwoDigits(i) == TwoDigits(j) <==> i == j
  {
    TwoDigitsParse(i);
    TwoDigitsParse(j);
    BelowIsNumericOrder(TwoDigits(i), TwoDigits(j));
  }

  /** Four-digit years compare as their numbers do. */
  lemma FourDigitYearOrder(a: int, b: int)
    requires 1000 <= a <= 9999 && 1000 <= b <= 9999
    ensures |IntToDecimal(a)| == |IntToDecimal(b)|
    ensures Below(IntToDecimal(a), IntToDecimal(b)) <==> a < b
    ensures IntToDecimal(a) == IntToDecimal(b) <==> a == b
  {
    FourDigitYear(a);
    FourDigitYear(b);
    ParseNatToDecimal(a);
    ParseNatToDecimal(b);
    BelowIsNumericOrder(IntToDecimal(a), IntToDecimal(b));
  }

  /** Two keys compare year field first, then month, then day. */
  lemma FormatDateFieldOrder(a: Date, b: Date)
    requires ValidDate(a) && ValidDate(b) && |IntToDecimal(a.year)| == |IntToDecimal(b.year)|
    ensures Below(FormatDate(a), FormatDate(b))
        <==> Below(IntToDecimal(a.year), IntToDecimal(b.year))
             || (IntToDecimal(a.year) == IntToDecimal(b.year)
                 && (Below(TwoDigits(a.month + 1), TwoDigits(b.month + 1))
                     || (TwoDigits(a.month + 1) == TwoDigits(b.month + 1)
                         && Below(TwoDigits(a.day), TwoDigits(b.day)))))
  {
    var ka, kb := FormatDate(a), FormatDate(b);
    var ya, ma, da := IntToDecimal(a.year), TwoDigits(a.month + 1), TwoDigits(a.day);
    var yb, mb, db := IntToDecimal(b.year), TwoDigits(b.month + 1), TwoDigits(b.day);
    KeyFieldOrder(ya, ma, da, yb, mb, db);
    assert Below(ka, kb) <==> Below(ya + "-" + ma + "-" + da, yb + "-" + mb + "-" + db);
  }

  /** For years of four digits, descending key order is most recent first. */
  lemma KeyOrderIsCalendarOrder(a: Date, b: Date)
    requires ValidDate(a) && ValidDate(b)
    requires 1000 <= a.year <= 9999 && 1000 <= b.year <= 9999
    ensures Below(FormatDate(a), FormatDate(b)) <==> Earlier(a, b)
  {
    FourDigitYearOrder(a.year, b.year);
    TwoDigitsOrder(a.month + 1, b.month + 1);
    TwoDigitsOrder(a.day, b.day);
    FormatDateFieldOrder(a, b);
  }

  /** Outside four-digit years the key order and the calendar order part:
      the last day of 999 sorts above the first day of 1000, so a descending
      listing shows the older entry first. */
  lemma KeyOrderAcrossYearWidths()
    ensures ValidDate(Date(999, 11, 31)) && ValidDate(Date(1000, 0, 1))
    ensures Earlier(Date(999, 11, 31), Date(1000, 0, 1))
    ensures Below(FormatDate(Date(1000, 0, 1)), FormatDate(Date(999, 11, 31)))
  {
    assert NatToDecimal(999) == "999";
    assert NatToDecimal(1000) == "1000";
  }

  /** Among negative years of one width, key order is the reverse of calendar
      order: 1 January of year -6 is earlier than that of year -5, yet its key
      sorts higher. */
  lemma NegativeYearOrderReversed()
    ensures ValidDate(Date(-6, 0, 1)) && ValidDate(Date(-5, 0, 1))
    ensures Earlier(Date(-6, 0, 1), Date(-5, 0, 1))
    ensures Below(FormatDate(Date(-5, 0, 1)), FormatDate(Date(-6, 0, 1)))
  {
    assert FormatDate(Date(-5, 0, 1)) == "-5-01-01";
    assert FormatDate(Date(-6, 0, 1)) == "-6-01-01";
  }

}
