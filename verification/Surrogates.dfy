/**
 Surrogate arithmetic: card numbers with Luhn check digits (`frostglass/masking/surrogates.py`,
 `frostglass/detection/structural.py`; the formula is Annex B of ISO/IEC 7812-1) and numbers kept in their magnitude
 bucket. Digits are ASCII. The hash behind `_stable_index` is an arbitrary function; its result modulo the size is used.
 */
module Surrogates {

  predicate IsDigit(c: char) { '0' <= c <= '9' }

  function Value(c: char): (d: nat)
    requires IsDigit(c)
    ensures d <= 9
  {
    c as int - '0' as int
  }

  function DigitChar(d: nat): (c: char)
    requires d <= 9
    ensures IsDigit(c) && Value(c) == d
  {
    ('0' as int + d) as char
  }

  predicate AllDigits(s: string) { forall i :: 0 <= i < |s| ==> IsDigit(s[i]) }

  function Digits(s: string): (d: string)
    ensures AllDigits(d) && |d| <= |s|
  {
    if s == "" then "" else if IsDigit(s[0]) then [s[0]] + Digits(s[1..]) else Digits(s[1..])
  }

  // ---- the Luhn sum ----

  /** The contribution of a digit in a doubled position. */
  function Doubled(d: nat): nat { if 2 * d > 9 then 2 * d - 9 else 2 * d }

  function Weighted(d: nat, fromRight: nat): nat { if fromRight % 2 == 1 then Doubled(d) else d }

  /** The sum over the last `n` digits, every second one from the right doubled. */
  function LuhnSum(digits: string, n: nat): nat
    requires n <= |digits| && AllDigits(digits)
  {
    if n == 0 then 0 else LuhnSum(digits, n - 1) + Weighted(Value(digits[|digits| - n]), n - 1)
  }

  method Total(digits: string) returns (total: nat)
    requires AllDigits(digits)
    ensures total == LuhnSum(digits, |digits|)
  {
    total := 0;
    for index := 0 to |digits|
      invariant total == LuhnSum(digits, index)
    {
      var digit := Value(digits[|digits| - 1 - index]);
      if index % 2 == 1 {
        digit := digit * 2;
        if digit > 9 {
          digit := digit - 9;
        }
      }
      total := total + digit;
    }
  }

  function CheckDigit(prefix: string): char
    requires AllDigits(prefix)
  {
    Completion(LuhnSum(prefix + "0", |prefix| + 1))
  }

  method LuhnCheckDigit(prefix: string) returns (c: char)
    requires AllDigits(prefix)
    ensures c == CheckDigit(prefix)
  {
    var total: int := Total(prefix + "0");
    NegativeModTen(total);
    c := DigitChar(-total % 10);
  }

  /** Python's `-total % 10`, which is never negative. */
  lemma NegativeModTen(total: int)
    ensures -total % 10 == (10 - total % 10) % 10
  {
  }

  predicate Balanced(sum: nat) { sum % 10 == 0 }

  predicate LuhnValid(value: string) {
    var digits := Digits(value);
    13 <= |digits| <= 19 && Balanced(LuhnSum(digits, |digits|))
  }

  method Luhn(value: string) returns (valid: bool)
    ensures valid == LuhnValid(value)
  {
    var digits := Digits(value);
    if !(13 <= |digits| <= 19) {
      return false;
    }
    var total := Total(digits);
    valid := total % 10 == 0;
  }

  lemma {:induction false} SumAgrees(a: string, b: string, n: nat)
    requires AllDigits(a) && AllDigits(b) && |a| == |b| && n <= |a|
    requires forall i :: |a| - n <= i < |a| ==> a[i] == b[i]
    ensures LuhnSum(a, n) == LuhnSum(b, n)
  {
    if n > 0 { SumAgrees(a, b, n - 1); }
  }

  /** Changing only the last digit changes the sum by that much. */
  lemma {:induction false} LastDigit(prefix: string, c: char, n: nat)
    requires AllDigits(prefix) && IsDigit(c) && 1 <= n <= |prefix| + 1
    ensures LuhnSum(prefix + [c], n) == LuhnSum(prefix + "0", n) + Value(c)
  {
    if n > 1 {
      LastDigit(prefix, c, n - 1);
      assert (prefix + [c])[|prefix| + 1 - n] == (prefix + "0")[|prefix| + 1 - n];
    }
  }

  /** The check digit completes the sum to a multiple of ten, and no other digit does. */
  lemma CheckDigitCompletes(prefix: string, c: char)
    requires AllDigits(prefix) && IsDigit(c)
    ensures Balanced(LuhnSum(prefix + [c], |prefix| + 1)) <==> c == CheckDigit(prefix)
  {
    LastDigit(prefix, c, |prefix| + 1);
    Completes(LuhnSum(prefix + [c], |prefix| + 1), LuhnSum(prefix + "0", |prefix| + 1), c);
  }

  function Completion(total: nat): char { DigitChar((10 - total % 10) % 10) }

  lemma Completes(sum: nat, total: nat, c: char)
    requires IsDigit(c) && sum == total + Value(c)
    ensures Balanced(sum) <==> c == Completion(total)
  {
    ModTen(total, Value(c));
    SameValue(c, Completion(total));
  }

  lemma SameValue(a: char, b: char)
    requires IsDigit(a) && IsDigit(b)
    ensures Value(a) == Value(b) <==> a == b
  {
  }

  lemma ModTen(total: nat, d: nat)
    requires d <= 9
    ensures (total + d) % 10 == 0 <==> d == (10 - total % 10) % 10
  {
  }

  // ---- card surrogates ----

  function CardPrefix(digits: string): string {
    if digits != "" && digits[0] == '3' then "378282"
    else if digits != "" && digits[0] == '5' then "555555"
    else "411111"
  }

  /** `n` picked digits. */
  function Body(hash: nat -> nat, n: nat): (s: string)
    ensures |s| == n && AllDigits(s)
  {
    var s := seq(n, i requires 0 <= i < n => DigitChar(hash(i) % 10));
    assert forall i :: 0 <= i < n ==> s[i] == DigitChar(hash(i) % 10);
    s
  }

  function CardDigits(digits: string, hash: nat -> nat): (s: string)
    ensures AllDigits(s) && |digits| <= |s|
  {
    var prefix := CardPrefix(digits);
    var length: nat := if |digits| < |prefix| + 2 then 1 else |digits| - |prefix| - 1;
    var replacement := prefix + Body(hash, length);
    replacement + [CheckDigit(replacement)]
  }

  /** Put the given digits where `original` has digits, and keep everything else. */
  function Refill(original: string, digits: string): string
    requires |Digits(original)| <= |digits|
  {
    if original == "" then ""
    else if IsDigit(original[0]) then [digits[0]] + Refill(original[1..], digits[1..])
    else [original[0]] + Refill(original[1..], digits)
  }

  function Card(original: string, hash: nat -> nat): string {
    var digits := Digits(original);
    Refill(original, CardDigits(digits, hash)[..|digits|])
  }

  /** Same length, the same characters in the same places apart from digits, and digits where there were digits. */
  ghost predicate SameShape(a: string, b: string) {
    |a| == |b| && forall i :: 0 <= i < |a| ==> IsDigit(a[i]) == IsDigit(b[i]) && (!IsDigit(a[i]) ==> a[i] == b[i])
  }

  lemma {:induction false} RefillShape(original: string, digits: string)
    requires AllDigits(digits) && |Digits(original)| == |digits|
    ensures SameShape(original, Refill(original, digits)) && Digits(Refill(original, digits)) == digits
    decreases |original|
  {
    if original != "" {
      var used := if IsDigit(original[0]) then digits[1..] else digits;
      RefillShape(original[1..], used);
      var filled := Refill(original, digits);
      assert filled[1..] == Refill(original[1..], used);
      forall i | 0 <= i < |original|
        ensures IsDigit(original[i]) == IsDigit(filled[i]) && (!IsDigit(original[i]) ==> original[i] == filled[i])
      {
        if i > 0 { assert original[i] == original[1..][i - 1] && filled[i] == filled[1..][i - 1]; }
      }
    }
  }

  /** A card surrogate keeps the shape of the original, and the detector accepts it exactly for 13 to 19 digits. */
  lemma CardIsValid(original: string, hash: nat -> nat)
    ensures SameShape(original, Card(original, hash))
    ensures LuhnValid(Card(original, hash)) <==> 13 <= |Digits(original)| <= 19
  {
    var digits := Digits(original);
    var made := CardDigits(digits, hash);
    RefillShape(original, made[..|digits|]);
    if 13 <= |digits| <= 19 {
      CardDigitsValid(digits, hash);
      assert made[..|digits|] == made;
    }
  }

  lemma CardDigitsValid(digits: string, hash: nat -> nat)
    requires 13 <= |digits|
    ensures var made := CardDigits(digits, hash); |made| == |digits| && Balanced(LuhnSum(made, |made|))
  {
    var replacement := CardPrefix(digits) + Body(hash, |digits| - 7);
    CheckDigitCompletes(replacement, CheckDigit(replacement));
  }

  /** The first six digits: those of the test range of the original's card brand. */
  function BrandDigit(first: char, i: nat): char
    requires i < 6
  {
    if first == '3' then "378282"[i] else if first == '5' then "555555"[i] else "411111"[i]
  }

  /** The digits of a card surrogate: brand, picked digits, and from eight digits on a last one that balances them. */
  ghost predicate CardDigitsAre(d: string, c: string, hash: nat -> nat)
    requires AllDigits(d) && AllDigits(c) && |c| == |d|
  {
    && (forall i :: 0 <= i < |d| && i < 6 ==> c[i] == BrandDigit(d[0], i))
    && (forall i :: 6 <= i < |d| && (i == 6 || i < |d| - 1) ==> Value(c[i]) == hash(i - 6) % 10)
    && (8 <= |d| ==> Balanced(LuhnSum(c, |c|)))
  }

  lemma CardInDigits(original: string, hash: nat -> nat)
    ensures var d, c := Digits(original), Digits(Card(original, hash)); |c| == |d| && CardDigitsAre(d, c, hash)
  {
    var d := Digits(original);
    RefillShape(original, CardDigits(d, hash)[..|d|]);
    MadeInDigits(d, hash);
  }

  lemma MadeInDigits(d: string, hash: nat -> nat)
    requires AllDigits(d)
    ensures CardDigitsAre(d, CardDigits(d, hash)[..|d|], hash)
  {
    var made := CardDigits(d, hash);
    var length: nat := if |d| < 8 then 1 else |d| - 7;
    var front, body := CardPrefix(d), Body(hash, length);
    var check := CheckDigit(front + body);
    assert made == front + body + [check];
    assert forall i :: 0 <= i < 6 ==> made[i] == front[i];
    BodyDigits(front, body, check, hash);
    if 8 <= |d| {
      assert made[..|d|] == front + body + [check];
      CheckDigitCompletes(front + body, check);
    }
  }

  lemma BodyDigits(front: string, body: string, check: char, hash: nat -> nat)
    requires |front| == 6 && body == Body(hash, |body|)
    ensures forall i :: 6 <= i < 6 + |body| ==>
              IsDigit((front + body + [check])[i]) && Value((front + body + [check])[i]) == hash(i - 6) % 10
  {
    forall i | 6 <= i < 6 + |body| ensures (front + body + [check])[i] == DigitChar(hash(i - 6) % 10) {
      assert (front + body + [check])[i] == body[i - 6];
      PickedDigit(hash, |body|, i - 6);
    }
  }

  lemma PickedDigit(hash: nat -> nat, n: nat, i: nat)
    requires i < n
    ensures Body(hash, n)[i] == DigitChar(hash(i) % 10)
  {
  }

  /** Two digit strings that are made like this are the same. */
  lemma CardDigitsUnique(d: string, a: string, b: string, hash: nat -> nat)
    requires AllDigits(d) && AllDigits(a) && AllDigits(b) && |a| == |d| == |b|
    requires CardDigitsAre(d, a, hash) && CardDigitsAre(d, b, hash)
    ensures a == b
  {
    var n := |d|;
    forall i | 0 <= i < n && (n < 8 || i < n - 1) ensures a[i] == b[i] {
      if i >= 6 { SameValue(a[i], b[i]); }
    }
    if 8 <= n {
      var front := a[..n - 1];
      assert a == front + [a[n - 1]] && b == front + [b[n - 1]];
      CheckDigitCompletes(front, a[n - 1]);
      CheckDigitCompletes(front, b[n - 1]);
    }
  }

  /** A card number is its own surrogate exactly when its digits already are as the surrogate's are made. */
  lemma CardReturnedExactly(original: string, hash: nat -> nat)
    ensures Card(original, hash) == original <==> CardDigitsAre(Digits(original), Digits(original), hash)
  {
    var d, c := Digits(original), Digits(Card(original, hash));
    CardInDigits(original, hash);
    if CardDigitsAre(d, d, hash) {
      CardDigitsUnique(d, c, d, hash);
      RefillShape(original, d);
      RefillSame(original);
      RefillShape(original, CardDigits(d, hash)[..|d|]);
    }
  }

  lemma {:induction false} RefillSame(original: string)
    ensures Refill(original, Digits(original)) == original
  {
    if original != "" {
      RefillSame(original[1..]);
      assert IsDigit(original[0]) ==> Digits(original)[1..] == Digits(original[1..]);
    }
  }

  // ---- one changed digit ----

  /** Distinct digits contribute distinct amounts in either kind of position. */
  lemma WeightsDistinct(a: nat, b: nat, fromRight: nat)
    requires a <= 9 && b <= 9 && a != b
    ensures Weighted(a, fromRight) != Weighted(b, fromRight) && Weighted(a, fromRight) <= 9
    ensures Weighted(b, fromRight) <= 9
  {
  }

  lemma {:induction false} OneChange(a: string, b: string, k: nat, n: nat)
    requires AllDigits(a) && AllDigits(b) && |a| == |b| && k < |a| && |a| - k <= n <= |a|
    requires forall i :: 0 <= i < |a| && i != k ==> a[i] == b[i]
    ensures LuhnSum(a, n) - LuhnSum(b, n) == Weighted(Value(a[k]), |a| - 1 - k) - Weighted(Value(b[k]), |a| - 1 - k)
  {
    if n == |a| - k {
      SumAgrees(a, b, n - 1);
    } else {
      OneChange(a, b, k, n - 1);
    }
  }

  lemma {:induction false} DigitsOfSameShape(a: string, b: string, k: nat) returns (j: nat)
    requires SameShape(a, b) && k < |a| && IsDigit(a[k]) && forall i :: 0 <= i < |a| && i != k ==> a[i] == b[i]
    ensures |Digits(a)| == |Digits(b)| && j < |Digits(a)|
    ensures Digits(a)[j] == a[k] && Digits(b)[j] == b[k]
    ensures forall i :: 0 <= i < |Digits(a)| && i != j ==> Digits(a)[i] == Digits(b)[i]
    decreases k
  {
    if k == 0 {
      assert a[1..] == b[1..];
      j := 0;
    } else {
      assert SameShape(a[1..], b[1..]) by {
        forall i | 0 <= i < |a[1..]|
          ensures IsDigit(a[1..][i]) == IsDigit(b[1..][i]) && (!IsDigit(a[1..][i]) ==> a[1..][i] == b[1..][i])
        {
          assert a[1..][i] == a[i + 1] && b[1..][i] == b[i + 1];
        }
      }
      var j' := DigitsOfSameShape(a[1..], b[1..], k - 1);
      j := if IsDigit(a[0]) then j' + 1 else j';
    }
  }

  /** The Luhn test rejects every accepted number with one digit changed. */
  lemma OneWrongDigitRejected(a: string, b: string, k: nat)
    requires LuhnValid(a) && SameShape(a, b) && k < |a| && IsDigit(a[k]) && a[k] != b[k]
    requires forall i :: 0 <= i < |a| && i != k ==> a[i] == b[i]
    ensures !LuhnValid(b)
  {
    var j := DigitsOfSameShape(a, b, k);
    var x, y := Digits(a), Digits(b);
    OneChange(x, y, j, |x|);
    WeightsDistinct(Value(x[j]), Value(y[j]), |x| - 1 - j);
    NotBothMultiples(LuhnSum(x, |x|), LuhnSum(y, |y|));
  }

  lemma NotBothMultiples(a: nat, b: nat)
    requires Balanced(a) && a != b && -9 <= a - b <= 9
    ensures !Balanced(b)
  {
  }

  /** `b` is `a` with digits `k` and `k + 1` exchanged. */
  ghost predicate Exchanged(a: string, b: string, k: nat) {
    && |a| == |b| && k + 1 < |a| && b[k] == a[k + 1] && b[k + 1] == a[k]
    && forall i :: 0 <= i < |a| && i != k && i != k + 1 ==> a[i] == b[i]
  }

  lemma ExchangeChanges(a: string, b: string, k: nat)
    requires AllDigits(a) && AllDigits(b) && Exchanged(a, b, k)
    ensures var r: nat, x, y := |a| - 1 - k, Value(a[k]), Value(a[k + 1]);
            LuhnSum(a, |a|) - LuhnSum(b, |b|)
              == Weighted(x, r) - Weighted(y, r) + (Weighted(y, r - 1) - Weighted(x, r - 1))
  {
    var c := a[k := a[k + 1]];
    OneChange(a, c, k, |a|);
    OneChange(c, b, k + 1, |a|);
  }

  /** Exchanging two neighbouring digits keeps the sum a multiple of ten exactly if they are equal, or 0 and 9. */
  lemma ExchangeDetectedExactly(a: string, b: string, k: nat)
    requires AllDigits(a) && AllDigits(b) && Exchanged(a, b, k) && Balanced(LuhnSum(a, |a|))
    ensures Balanced(LuhnSum(b, |b|)) <==> a[k] == a[k + 1] || {a[k], a[k + 1]} == {'0', '9'}
  {
    ExchangeChanges(a, b, k);
    var x, y := Value(a[k]), Value(a[k + 1]);
    SameValue(a[k], a[k + 1]);
    SameValue(a[k], '0');
    SameValue(a[k], '9');
    SameValue(a[k + 1], '0');
    SameValue(a[k + 1], '9');
    NeighboursWeigh(LuhnSum(a, |a|), LuhnSum(b, |b|), x, y, |a| - 1 - k);
    assert {a[k], a[k + 1]} == {'0', '9'} <==> (a[k] == '0' && a[k + 1] == '9') || (a[k] == '9' && a[k + 1] == '0') by {
      if {a[k], a[k + 1]} == {'0', '9'} {
        assert '0' in {a[k], a[k + 1]} && '9' in {a[k], a[k + 1]};
      }
    }
  }

  /** How much more a digit contributes in a doubled position. */
  function Gain(d: nat): int { Doubled(d) - d }

  lemma GainsDiffer(x: nat, y: nat)
    requires x <= 9 && y <= 9
    ensures -8 <= Gain(x) - Gain(y) <= 8
    ensures Gain(x) == Gain(y) <==> x == y || (x == 0 && y == 9) || (x == 9 && y == 0)
  {
  }

  lemma NeighboursWeigh(s: nat, t: nat, x: nat, y: nat, r: nat)
    requires x <= 9 && y <= 9 && r >= 1 && Balanced(s)
    requires s - t == Weighted(x, r) - Weighted(y, r) + (Weighted(y, r - 1) - Weighted(x, r - 1))
    ensures Balanced(t) <==> x == y || (x == 0 && y == 9) || (x == 9 && y == 0)
  {
    GainsDiffer(x, y);
    var gain := Gain(x) - Gain(y);
    assert s - t == gain || t - s == gain;
    SmallDifference(s, t);
  }

  lemma SmallDifference(s: nat, t: nat)
    requires Balanced(s) && -8 <= s - t <= 8
    ensures Balanced(t) <==> s == t
  {
  }

  // ---- numbers ----

  /** `10 ** n`. */
  function Pow10(n: nat): (p: nat)
    ensures p >= 1
  {
    if n == 0 then 1 else 10 * Pow10(n - 1)
  }

  function Abs(n: int): nat { if n < 0 then -n else n }

  /** The number of decimal digits of `n`, 1 for zero. */
  function Length(n: nat): (k: nat)
    ensures k >= 1
  {
    if n < 10 then 1 else 1 + Length(n / 10)
  }

  lemma {:induction false} LengthBounds(n: nat)
    ensures n < Pow10(Length(n)) && (n >= 1 ==> Pow10(Length(n) - 1) <= n)
  {
    if n >= 10 { LengthBounds(n / 10); }
  }

  lemma {:induction false} PowMonotone(a: nat, b: nat)
    requires a <= b
    ensures Pow10(a) <= Pow10(b)
    decreases b
  {
    if a < b { PowMonotone(a, b - 1); }
  }

  lemma PowGap(a: nat, b: nat)
    ensures a < b ==> 10 * Pow10(a) <= Pow10(b)
  {
    if a < b { PowMonotone(a + 1, b); }
  }

  /** `(value / 100)` rounded to an integer, halves to even. */
  function RoundHundredths(value: int): int {
    var q, r := value / 100, value % 100;
    if r < 50 || (r == 50 && q % 2 == 0) then q else q + 1
  }

  /** The exponent of the bucket of a value with `p` decimals, scaled to an integer: `max(adjusted, 0) + p`. */
  function BucketExponent(scaled: int, p: nat): nat {
    var e := Length(Abs(scaled)) - 1;
    if e < p then p else e
  }

  /** A value in hundredths of the last decimal, clamped strictly inside the bucket; bounds are whole units. */
  function Clamp(value: int, lower: int, upper: int): int {
    var raised := if value < lower * 100 then lower * 100 else value;
    if raised > upper * 100 then upper * 100 else raised
  }

  /** The bounds of the clamp: one unit inside the bucket of the value. */
  function Lowest(scaled: int, p: nat): int {
    var bucket: int := Pow10(BucketExponent(scaled, p));
    if scaled > 0 then bucket + 1 else -10 * bucket + 1
  }

  function Highest(scaled: int, p: nat): int {
    var bucket: int := Pow10(BucketExponent(scaled, p));
    if scaled > 0 then 10 * bucket - 1 else -bucket - 1
  }

  /** The change in hundredths, from -9 to 9. */
  function Delta(hash: nat): int { hash % 19 - 9 }

  /**
   `_number` on the value `scaled / 10**p`: scale by `1 + (hash % 19 - 9) / 100`, clamp, and round to `p` decimals. All
   amounts are in units of the last decimal.
   */
  function Number(scaled: int, p: nat, hash: nat): int {
    var moved := scaled * (100 + Delta(hash));
    if scaled == 0 then RoundHundredths(moved)
    else RoundHundredths(Clamp(moved, Lowest(scaled, p), Highest(scaled, p)))
  }

  lemma RoundStaysInside(value: int, lower: int, upper: int)
    requires lower * 100 <= value <= upper * 100
    ensures lower <= RoundHundredths(value) <= upper
  {
  }

  /** The result lies strictly inside the bucket the code computes. */
  lemma NumberInside(scaled: int, p: nat, hash: nat)
    requires scaled != 0
    ensures var bucket: int := Pow10(BucketExponent(scaled, p));
            var n := Number(scaled, p, hash);
            if scaled > 0 then bucket < n < 10 * bucket else -10 * bucket < n < -bucket
  {
    var lower, upper := Lowest(scaled, p), Highest(scaled, p);
    RoundStaysInside(Clamp(scaled * (100 + Delta(hash)), lower, upper), lower, upper);
  }

  lemma LengthFromBounds(n: nat, e: nat)
    requires Pow10(e) <= n < 10 * Pow10(e)
    ensures Length(n) == e + 1
  {
    LengthBounds(n);
    var k: nat := Length(n) - 1;
    PowGap(k, e);
    PowGap(e, k);
  }

  /** Same sign and same power-of-ten bucket: the leading digit stands in the same place. */
  ghost predicate SameMagnitude(a: int, b: int) {
    (a > 0 <==> b > 0) && (a < 0 <==> b < 0) && Length(Abs(a)) == Length(Abs(b))
  }

  /**
   A surrogate number keeps sign and power-of-ten bucket exactly when the value is zero or at least one in magnitude.
   */
  lemma NumberKeepsMagnitude(scaled: int, p: nat, hash: nat)
    ensures SameMagnitude(scaled, Number(scaled, p, hash)) <==> scaled == 0 || Abs(scaled) >= Pow10(p)
  {
    if scaled != 0 {
      var n, e := Number(scaled, p, hash), BucketExponent(scaled, p);
      NumberInside(scaled, p, hash);
      LengthFromBounds(Abs(n), e);
      AtLeastOne(scaled, p);
    }
  }

  /** A number is at least one in magnitude exactly when its leading digit stands before the decimals. */
  lemma AtLeastOne(scaled: int, p: nat)
    requires scaled != 0
    ensures Length(Abs(scaled)) - 1 >= p <==> Abs(scaled) >= Pow10(p)
  {
    LengthBounds(Abs(scaled));
    var k: nat := Length(Abs(scaled)) - 1;
    if k < p { PowMonotone(k + 1, p); } else { PowMonotone(p, k); }
  }

  // ---- when the original comes back ----

  /**
   The change is too small to survive rounding, or it would leave the bucket at the bound where the value already is.
   A tie is rounded to the even neighbour.
   */
  predicate ChangeLost(scaled: int, change: int, lower: int, upper: int) {
    && lower <= scaled <= upper
    && (-50 < change < 50 || (Abs(change) == 50 && scaled % 2 == 0)
        || (scaled == lower && change < 0) || (scaled == upper && change > 0))
  }

  lemma RoundReturns(scaled: int, change: int, lower: int, upper: int)
    requires lower <= upper
    ensures RoundHundredths(Clamp(100 * scaled + change, lower, upper)) == scaled
            <==> ChangeLost(scaled, change, lower, upper)
  {
    if 100 * lower <= 100 * scaled + change <= 100 * upper {
      RoundNear(scaled, change);
    }
  }

  lemma RoundNear(scaled: int, change: int)
    ensures RoundHundredths(100 * scaled + change) == scaled
            <==> -50 < change < 50 || (Abs(change) == 50 && scaled % 2 == 0)
  {
  }

  /** A number is its own surrogate exactly when it is zero or its change is lost. */
  lemma NumberReturnedExactly(scaled: int, p: nat, hash: nat)
    ensures Number(scaled, p, hash) == scaled
            <==> scaled == 0 || ChangeLost(scaled, scaled * Delta(hash), Lowest(scaled, p), Highest(scaled, p))
  {
    if scaled != 0 {
      assert scaled * (100 + Delta(hash)) == 100 * scaled + scaled * Delta(hash);
      RoundReturns(scaled, scaled * Delta(hash), Lowest(scaled, p), Highest(scaled, p));
    }
  }

  /**
   Zero, and 5 without decimals, whatever the hash; 99 when it would grow; and any value the bounds allow, unchanged.
   */
  lemma ReturnedExamples(scaled: int, p: nat, hash: nat)
    ensures Number(0, p, hash) == 0 && Number(5, 0, hash) == 5 && Number(99, 0, 10) == 99
    ensures Delta(hash) == 0 && Lowest(scaled, p) <= scaled <= Highest(scaled, p) ==> Number(scaled, p, hash) == scaled
  {
    assert Pow10(0) == 1 && Pow10(1) == 10 && Length(9) == 1 && Length(99) == 2;
    NumberReturnedExactly(5, 0, hash);
    NumberReturnedExactly(99, 0, 10);
    NumberReturnedExactly(scaled, p, hash);
  }

  // ---- how far a number moves ----

  /**
   With the bucket from `10**k` to `10**(k + 1)`, in units of the last decimal, that holds the value, or the bucket from
   1 to 10 for smaller ones: the surrogate is the value changed by -9 to 9 per cent and rounded, halves to even, unless
   that leaves the bucket; then it is the bucket's first or last number.
   */
  lemma NumberExactly(scaled: int, p: nat, hash: nat, k: nat)
    requires scaled != 0 && k >= p && Abs(scaled) < 10 * Pow10(k) && (k == p || Pow10(k) <= Abs(scaled))
    ensures var b: int, n, moved := Pow10(k), Number(scaled, p, hash), scaled * (91 + hash % 19);
            var first, last := if scaled > 0 then b + 1 else 1 - 10 * b, if scaled > 0 then 10 * b - 1 else -b - 1;
            if moved < 100 * first then n == first
            else if moved > 100 * last then n == last
            else -50 <= 100 * n - moved <= 50 && (Abs(100 * n - moved) == 50 ==> n % 2 == 0)
  {
    BucketIs(scaled, p, k);
    assert 100 + Delta(hash) == 91 + hash % 19;
    RoundIsNear(scaled * (91 + hash % 19));
  }

  lemma BucketIs(scaled: int, p: nat, k: nat)
    requires scaled != 0 && k >= p && Abs(scaled) < 10 * Pow10(k) && (k == p || Pow10(k) <= Abs(scaled))
    ensures BucketExponent(scaled, p) == k
  {
    var e: nat := Length(Abs(scaled)) - 1;
    LengthBounds(Abs(scaled));
    PowGap(k, e);
    PowGap(e, k);
  }

  lemma RoundIsNear(value: int)
    ensures var n := RoundHundredths(value);
            -50 <= 100 * n - value <= 50 && (Abs(100 * n - value) == 50 ==> n % 2 == 0)
    ensures value % 100 == 0 ==> RoundHundredths(value) == value / 100
  {
  }
}
