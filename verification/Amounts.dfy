/**
 Number surrogates as text (`_number` in `frostglass/masking/surrogates.py`): the numeral that the pattern found is
 read, moved and written again with thousands separators. What stands before and after it stays as it is.
 */
module Amounts {
  import opened Surrogates
  import opened Text

  /** A numeral: an optional minus, digits and commas, and the digits after an optional point. */
  datatype Numeral = Numeral(negative: bool, whole: string, fraction: string) {
    predicate Matched() {
      whole != "" && (forall i :: 0 <= i < |whole| ==> IsDigit(whole[i]) || whole[i] == ',') && AllDigits(fraction)
    }

    function Text(): string { (if negative then "-" else "") + (whole + PointAnd(fraction)) }

    /** The digits, which a numeral of commas alone does not have. */
    function Compact(): string { Digits(whole) + fraction }
  }

  function PointAnd(fraction: string): string { if fraction == "" then "" else "." + fraction }

  // ---- reading ----

  function ValueOf(s: string): nat
    requires AllDigits(s)
  {
    if s == "" then 0 else 10 * ValueOf(s[..|s| - 1]) + Value(s[|s| - 1])
  }

  /** The value in units of its last decimal. */
  function Scaled(x: Numeral): int
    requires x.Matched()
  {
    var magnitude: int := ValueOf(x.Compact());
    if x.negative then -magnitude else magnitude
  }

  // ---- writing ----

  /** The last `p` digits. */
  function Padded(n: nat, p: nat): (s: string)
    ensures AllDigits(s) && |s| == p
  {
    if p == 0 then "" else Padded(n / 10, p - 1) + [DigitChar(n % 10)]
  }

  /** The number without its last `p` digits. */
  function Above(n: nat, p: nat): nat { if p == 0 then n else Above(n / 10, p - 1) }

  /** Commas between groups of three. */
  function Grouped(s: string): string {
    if |s| <= 3 then s else Grouped(s[..|s| - 3]) + ("," + s[|s| - 3..])
  }

  /** The format `,.{p}f` of a magnitude in units of the last decimal. */
  function Formatted(negative: bool, n: nat, p: nat): Numeral {
    Numeral(negative, Grouped(Decimal(Above(n, p))), Padded(n, p))
  }

  /** What `_number` makes of the numeral; without a digit it is left alone. The sign is kept, also that of zero. */
  function Replacement(x: Numeral, hash: nat): string
    requires x.Matched()
  {
    if x.Compact() == "" then x.Text()
    else Formatted(x.negative, Abs(Number(Scaled(x), |x.fraction|, hash)), |x.fraction|).Text()
  }

  // ---- reading what was written ----

  lemma {:induction false} ValueOfDecimal(n: nat)
    ensures ValueOf(Decimal(n)) == n
  {
    if n >= 10 { ValueOfDecimal(n / 10); }
  }

  lemma ValueOfSnoc(u: string, c: char)
    requires AllDigits(u) && IsDigit(c)
    ensures ValueOf(u + [c]) == 10 * ValueOf(u) + Value(c)
  {
    assert (u + [c])[..|u|] == u;
  }

  /** Cutting a number after its first digits and putting it together again. */
  lemma {:induction false} ValueOfParts(n: nat, p: nat)
    ensures ValueOf(Decimal(Above(n, p)) + Padded(n, p)) == n
    decreases p
  {
    var head, tail := Decimal(Above(n, p)), Padded(n, p);
    if p == 0 {
      assert head + tail == head;
      ValueOfDecimal(n);
    } else {
      ValueOfParts(n / 10, p - 1);
      var front := Padded(n / 10, p - 1);
      Associate(head, front, DigitChar(n % 10));
      ValueOfSnoc(head + front, DigitChar(n % 10));
    }
  }

  lemma Associate(a: string, b: string, c: char)
    ensures a + (b + [c]) == a + b + [c]
  {
  }

  /** Reading digits and cutting the value where they were joined. */
  lemma {:induction false} PartsOfValue(u: string, v: string)
    requires AllDigits(u) && AllDigits(v)
    ensures Above(ValueOf(u + v), |v|) == ValueOf(u) && Padded(ValueOf(u + v), |v|) == v
    decreases |v|
  {
    if v == "" {
      assert u + v == u;
    } else {
      var front, c := v[..|v| - 1], v[|v| - 1];
      PartsOfValue(u, front);
      assert v == front + [c];
      Associate(u, front, c);
      ValueOfSnoc(u + front, c);
    }
  }

  lemma {:induction false} DigitsAppend(a: string, b: string)
    ensures Digits(a + b) == Digits(a) + Digits(b)
    decreases |a|
  {
    if a == "" {
      assert a + b == b;
    } else {
      assert (a + b)[1..] == a[1..] + b;
      DigitsAppend(a[1..], b);
    }
  }

  lemma {:induction false} DigitsOfDigits(s: string)
    requires AllDigits(s)
    ensures Digits(s) == s
  {
    if s != "" { DigitsOfDigits(s[1..]); }
  }

  lemma {:induction false} DigitsOfGrouped(s: string)
    requires AllDigits(s)
    ensures Digits(Grouped(s)) == s
    decreases |s|
  {
    if |s| <= 3 {
      DigitsOfDigits(s);
    } else {
      var front, group := s[..|s| - 3], s[|s| - 3..];
      DigitsOfGrouped(front);
      DigitsAppend(Grouped(front), "," + group);
      DigitsOfGroup(group);
      assert front + group == s;
    }
  }

  lemma DigitsOfGroup(group: string)
    requires AllDigits(group)
    ensures Digits("," + group) == group
  {
    assert ("," + group)[1..] == group;
    DigitsOfDigits(group);
  }

  /** Counted from the right, exactly every fourth character is a comma, and the first one is none. */
  lemma {:induction false} CommasEveryFourth(s: string, i: nat)
    requires AllDigits(s) && s != "" && i < |Grouped(s)|
    ensures Grouped(s)[|Grouped(s)| - 1 - i] == ',' <==> i % 4 == 3
    ensures Grouped(s) != "" && Grouped(s)[0] != ','
    decreases |s|
  {
    if |s| > 3 {
      var front, group := s[..|s| - 3], s[|s| - 3..];
      CommasEveryFourth(front, if i < 4 then 0 else i - 4);
    }
  }

  // ---- when the original text comes back ----

  /** Written as the format writes it: no leading zeros, and commas between groups of three. */
  predicate Canonical(whole: string) { whole == Grouped(Decimal(ValueOf(Digits(whole)))) }

  lemma SameTexts(x: Numeral, y: Numeral)
    requires x.negative == y.negative && |x.fraction| == |y.fraction| && x.Text() == y.Text()
    ensures x == y
  {
    SameTail(if x.negative then "-" else "", x.whole + PointAnd(x.fraction), y.whole + PointAnd(y.fraction));
    SameParts(x.whole, PointAnd(x.fraction), y.whole, PointAnd(y.fraction));
    if x.fraction != "" { SameTail(".", x.fraction, y.fraction); }
  }

  lemma SameTail(a: string, u: string, v: string)
    requires a + u == a + v
    ensures u == v
  {
    assert u == (a + u)[|a|..] && v == (a + v)[|a|..];
  }

  lemma SameParts(a: string, b: string, c: string, d: string)
    requires a + b == c + d && |b| == |d|
    ensures a == c && b == d
  {
    assert a == (a + b)[..|a|] && c == (c + d)[..|c|];
    assert b == (a + b)[|a|..] && d == (c + d)[|c|..];
  }

  /** A magnitude is written as the numeral itself exactly when it is the numeral's and that is canonical. */
  lemma WrittenBackExactly(x: Numeral, n: nat)
    requires x.Matched()
    ensures Formatted(x.negative, n, |x.fraction|) == x <==> Canonical(x.whole) && n == ValueOf(x.Compact())
  {
    var p := |x.fraction|;
    DigitsOfGrouped(Decimal(Above(n, p)));
    ValueOfDecimal(Above(n, p));
    ValueOfParts(n, p);
    PartsOfValue(Digits(x.whole), x.fraction);
  }

  /** A number keeps its sign, so its magnitude decides. */
  lemma MagnitudeDecides(scaled: int, p: nat, hash: nat)
    ensures Abs(Number(scaled, p, hash)) == Abs(scaled) <==> Number(scaled, p, hash) == scaled
  {
    if scaled != 0 { NumberInside(scaled, p, hash); }
  }

  /**
   The surrogate text is the original text exactly when there is no digit, or the numeral is canonical and the number
   is returned.
   */
  lemma TextReturnedExactly(x: Numeral, hash: nat)
    requires x.Matched()
    ensures var s, p := Scaled(x), |x.fraction|;
            Replacement(x, hash) == x.Text()
            <==> x.Compact() == "" ||
                 (Canonical(x.whole) && (s == 0 || ChangeLost(s, s * Delta(hash), Lowest(s, p), Highest(s, p))))
  {
    if x.Compact() != "" {
      var s, p := Scaled(x), |x.fraction|;
      var y := Formatted(x.negative, Abs(Number(s, p, hash)), p);
      if y.Text() == x.Text() { SameTexts(x, y); }
      WrittenBackExactly(x, Abs(Number(s, p, hash)));
      MagnitudeDecides(s, p, hash);
      NumberReturnedExactly(s, p, hash);
    }
  }

  /** The value 5000 comes back with a comma, which is not the text it was. */
  lemma UngroupedChanges(hash: nat)
    requires Delta(hash) == 0
    ensures var x := Numeral(false, "5000", ""); x.Matched() && Replacement(x, hash) == "5,000"
  {
    FiveThousand();
    Undivided("5000");
    FiveThousandStays(hash);
    WrittenPlain(5000);
  }

  /** A numeral of digits alone. */
  lemma Undivided(s: string)
    requires s != "" && AllDigits(s)
    ensures var x := Numeral(false, s, ""); x.Matched() && x.Compact() == s && Scaled(x) == ValueOf(s)
  {
    DigitsOfDigits(s);
    assert s + "" == s;
  }

  lemma WrittenPlain(n: nat)
    ensures Formatted(false, n, 0).Text() == Grouped(Decimal(n))
  {
    assert Padded(n, 0) == "" && "" + (Grouped(Decimal(n)) + "") == Grouped(Decimal(n));
  }

  lemma FiveThousandStays(hash: nat)
    requires Delta(hash) == 0
    ensures Number(5000, 0, hash) == 5000
  {
    assert Pow10(0) == 1 && Pow10(3) == 1000 && Length(5000) == 4;
    NumberReturnedExactly(5000, 0, hash);
  }

  lemma FiveThousand()
    ensures Decimal(5000) == "5000" && ValueOf("5000") == 5000 && Grouped("5000") == "5,000"
  {
    DecimalSnoc(5, 0);
    DecimalSnoc(50, 0);
    DecimalSnoc(500, 0);
    assert Decimal(5) == "5";
    assert "5" + "0" == "50" && "50" + "0" == "500" && "500" + "0" == "5000";
    ValueOfDecimal(5000);
    assert "5000"[..1] == "5" && "5000"[1..] == "000";
  }

  lemma DecimalSnoc(n: nat, d: nat)
    requires n >= 1 && d <= 9
    ensures Decimal(10 * n + d) == Decimal(n) + [DigitChar(d)]
  {
  }
}
