/** Decimal numbers as text: the digit folds of the readers, the padded fields
    of the printers, and byte-wise string order. */
module Decimal {
  import opened Common

  function Pow10(n: nat): (p: nat)
    ensures p > 0
  {
    if n == 0 then 1 else 10 * Pow10(n - 1)
  }

  predicate AllDigits(s: Bytes) { forall i | 0 <= i < |s| :: IsDigit(s[i]) }

  /** The number a digit string denotes. */
  function Value(s: Bytes): nat
    requires AllDigits(s)
  {
    if s == [] then 0 else Value(s[..|s| - 1]) * 10 + DigitValue(s[|s| - 1])
  }

  lemma {:induction false} ValueBound(s: Bytes)
    requires AllDigits(s)
    ensures Value(s) < Pow10(|s|)
  {
    if s != [] {
      ValueBound(s[..|s| - 1]);
    }
  }

  lemma {:induction false} ValueConcat(a: Bytes, b: Bytes)
    requires AllDigits(a) && AllDigits(b)
    ensures AllDigits(a + b) && Value(a + b) == Value(a) * Pow10(|b|) + Value(b)
  {
    if b == [] {
      assert a + b == a;
    } else {
      var b', last := b[..|b| - 1], b[|b| - 1];
      ValueConcat(a, b');
      ValueSnoc(a + b', last);
      ValueSnoc(b', last);
      assert a + b == a + b' + [last] && b == b' + [last];
      TimesTen(Value(a), Pow10(|b'|));
    }
  }

  lemma ValueSnoc(s: Bytes, c: char)
    requires AllDigits(s) && IsDigit(c)
    ensures AllDigits(s + [c]) && Value(s + [c]) == Value(s) * 10 + DigitValue(c)
  {
    assert (s + [c])[..|s|] == s;
  }

  lemma TimesTen(v: nat, p: nat)
    ensures v * (10 * p) == 10 * (v * p)
  {
  }

  /** Dropping the digits after the first `k` is a floor division. */
  lemma ValueOfPrefix(s: Bytes, k: nat)
    requires AllDigits(s) && k <= |s|
    ensures Value(s[..k]) == Value(s) / Pow10(|s| - k)
  {
    hide Value, Pow10;
    assert s == s[..k] + s[k..];
    ValueConcat(s[..k], s[k..]);
    ValueBound(s[k..]);
    DivideExact(Value(s[..k]), Pow10(|s| - k), Value(s[k..]));
  }

  lemma DivideExact(q: nat, p: nat, r: nat)
    requires r < p
    ensures (q * p + r) / p == q
  {
    var k := (q * p + r) / p;
    assert k * p <= q * p + r < (k + 1) * p;
    if k < q {
      ScaleLe(k + 1, q, p);
    } else if k > q {
      ScaleLe(q + 1, k, p);
    }
  }

  lemma ScaleLe(a: int, b: int, p: nat)
    requires a <= b
    ensures a * p <= b * p
  {
  }

  lemma {:induction false} Pow10Add(a: nat, b: nat)
    ensures Pow10(a + b) == Pow10(a) * Pow10(b)
  {
    if a > 0 {
      Pow10Add(a - 1, b);
      TimesTen(Pow10(b), Pow10(a - 1));
    }
  }

  lemma {:induction false} Pow10Monotone(a: nat, b: nat)
    requires a <= b
    ensures Pow10(a) <= Pow10(b)
  {
    if a < b {
      Pow10Monotone(a, b - 1);
    }
  }

  // ----- printing -----

  /** `{}` of a non-negative integer. */
  function Digits(n: nat): (s: Bytes)
    ensures s != [] && AllDigits(s)
  {
    if n < 10 then [DigitChar(n)] else Digits(n / 10) + [DigitChar(n % 10)]
  }

  lemma {:induction false} ValueOfDigits(n: nat)
    ensures Value(Digits(n)) == n
  {
    var d := Digits(n);
    if n < 10 {
      assert d[..0] == [];
    } else {
      assert d[..|d| - 1] == Digits(n / 10);
      ValueOfDigits(n / 10);
    }
  }

  function Zeros(n: int): Bytes {
    if n <= 0 then [] else ['0'] + Zeros(n - 1)
  }

  /** `{:0w}`: the sign counts towards the width, a wide number is not cut. */
  function Padded(n: int, width: nat): Bytes {
    if n >= 0 then Zeros(width - |Digits(n)|) + Digits(n)
    else ['-'] + Zeros(width - 1 - |Digits(-n)|) + Digits(-n)
  }

  function Dec2(n: nat): (s: Bytes)
    requires n < 100
    ensures |s| == 2 && AllDigits(s)
  {
    [DigitChar(n / 10), DigitChar(n % 10)]
  }

  function Dec3(n: nat): (s: Bytes)
    requires n < 1000
    ensures |s| == 3 && AllDigits(s)
  {
    [DigitChar(n / 100)] + Dec2(n % 100)
  }

  function Dec4(n: nat): (s: Bytes)
    requires n < 10000
    ensures |s| == 4 && AllDigits(s)
  {
    Dec2(n / 100) + Dec2(n % 100)
  }

  lemma ValueOfPair(s: Bytes)
    requires AllDigits(s) && |s| == 2
    ensures Value(s) == 10 * DigitValue(s[0]) + DigitValue(s[1])
    ensures Value(s) < 100 && Dec2(Value(s)) == s
  {
    hide Value;
    assert s == [] + [s[0]] + [s[1]];
    NoValue();
    ValueSnoc([], s[0]);
    ValueSnoc([] + [s[0]], s[1]);
    SplitTen(DigitValue(s[0]), DigitValue(s[1]));
    assert DigitChar(DigitValue(s[0])) == s[0];
    assert DigitChar(DigitValue(s[1])) == s[1];
  }

  lemma NoValue()
    ensures Value([]) == 0
  {
  }

  lemma SplitTen(a: nat, b: nat)
    requires a < 10 && b < 10
    ensures a * 10 + b < 100 && (a * 10 + b) / 10 == a && (a * 10 + b) % 10 == b
  {
  }

  lemma ValueOfQuad(s: Bytes)
    requires AllDigits(s) && |s| == 4
    ensures Value(s) < 10000 && Dec4(Value(s)) == s
    ensures Value(s) == 100 * Value(s[..2]) + Value(s[2..])
  {
    hide Value, Dec2, Pow10;
    var hi, lo := s[..2], s[2..];
    assert s == hi + lo;
    ValueConcat(hi, lo);
    HundredIsPower();
    ValueOfPair(hi);
    ValueOfPair(lo);
    SplitHundred(Value(hi), Value(lo));
  }

  lemma HundredIsPower()
    ensures Pow10(2) == 100
  {
    assert Pow10(1) == 10;
  }

  lemma SplitHundred(a: nat, b: nat)
    requires a < 100 && b < 100
    ensures a * 100 + b < 10000 && (a * 100 + b) / 100 == a && (a * 100 + b) % 100 == b
  {
  }

  lemma ReadDec2(n: nat)
    requires n < 100
    ensures Value(Dec2(n)) == n
  {
    ValueOfPair(Dec2(n));
  }

  lemma ReadDec3(n: nat)
    requires n < 1000
    ensures Value(Dec3(n)) == n
  {
    var hi := [DigitChar(n / 100)];
    assert hi[..0] == [];
    assert Value(hi) == Value([]) * 10 + n / 100;
    ValueConcat(hi, Dec2(n % 100));
    assert Pow10(2) == 100 by { assert Pow10(1) == 10; }
    ReadDec2(n % 100);
  }

  lemma ReadDec4(n: nat)
    requires n < 10000
    ensures Value(Dec4(n)) == n
  {
    ValueOfQuad(Dec4(n));
    assert Dec4(n)[..2] == Dec2(n / 100) && Dec4(n)[2..] == Dec2(n % 100);
    ReadDec2(n / 100);
    ReadDec2(n % 100);
  }

  lemma DigitsShort(n: nat)
    requires n < 10000
    ensures n < 10 ==> Digits(n) == [DigitChar(n)]
    ensures 10 <= n < 100 ==> Digits(n) == Dec2(n)
    ensures 100 <= n < 1000 ==> Digits(n) == Dec3(n)
    ensures 1000 <= n ==> Digits(n) == Dec4(n)
  {
    if n >= 10 {
      assert Digits(n) == Digits(n / 10) + [DigitChar(n % 10)];
    }
    if n >= 100 {
      HundredsDigits(n);
    }
  }

  lemma HundredsDigits(n: nat)
    requires 100 <= n < 10000
    ensures Digits(n) == if n < 1000 then Dec3(n) else Dec4(n)
  {
    hide Digits;
    var h, t := n / 100, n / 10;
    HundredQuotients(n);
    DigitsStep(n);
    DigitsStep(t);
    DigitsStep(h);
    assert Digits(n) == Digits(h) + Dec2(n % 100);
    if n >= 1000 {
      DigitsStep(h / 10);
      assert Digits(h) == Dec2(h);
    }
  }

  lemma DigitsStep(n: nat)
    ensures Digits(n) == if n < 10 then [DigitChar(n)] else Digits(n / 10) + [DigitChar(n % 10)]
  {
  }

  lemma HundredQuotients(n: nat)
    requires n < 10000
    ensures n / 10 / 10 == n / 100 && n / 10 % 10 == n % 100 / 10 && n % 10 == n % 100 % 10
    ensures n < 1000 ==> n / 100 < 10
    ensures n >= 1000 ==> 10 <= n / 100 && 1 <= n / 100 / 10 < 10
  {
  }

  lemma ZerosShort()
    ensures Zeros(0) == [] && Zeros(1) == ['0'] && Zeros(2) == ['0', '0'] && Zeros(3) == ['0', '0', '0']
  {
    assert Zeros(1) == ['0'] + Zeros(0);
    assert Zeros(2) == ['0'] + Zeros(1);
    assert Zeros(3) == ['0'] + Zeros(2);
  }

  /** Zero padding to a fixed width is the fixed-width form when the number fits. */
  lemma PaddedFits(n: nat)
    requires n < 10000
    ensures n < 100 ==> Padded(n, 2) == Dec2(n)
    ensures n < 1000 ==> Padded(n, 3) == Dec3(n)
    ensures Padded(n, 4) == Dec4(n)
  {
    hide Digits, Zeros;
    ZerosShort();
    DigitsShort(n);
    assert [] + Digits(n) == Digits(n);
    if n < 10 {
      PaddedOne(n);
    } else if n < 100 {
      PaddedTwo(n);
    } else {
      assert n < 1000 ==> Dec4(n) == ['0'] + Dec3(n);
    }
  }

  lemma PaddedOne(n: nat)
    requires n < 10
    ensures Dec2(n) == ['0'] + [DigitChar(n)] && Dec3(n) == ['0', '0'] + [DigitChar(n)]
    ensures Dec4(n) == ['0', '0', '0'] + [DigitChar(n)]
  {
  }

  lemma PaddedTwo(n: nat)
    requires 10 <= n < 100
    ensures Dec3(n) == ['0'] + Dec2(n) && Dec4(n) == ['0', '0'] + Dec2(n)
  {
  }

  lemma {:induction false} DigitsLength(n: nat, k: nat)
    requires Pow10(k) <= n
    ensures |Digits(n)| > k
  {
    if k > 0 {
      assert Pow10(k - 1) <= n / 10;
      DigitsLength(n / 10, k - 1);
    }
  }

  // ----- byte-wise order -----

  /** `str::cmp`: the first differing byte decides, a proper prefix comes first. */
  predicate LexLess(a: Bytes, b: Bytes) {
    b != [] && (a == [] || a[0] < b[0] || (a[0] == b[0] && LexLess(a[1..], b[1..])))
  }

  lemma {:induction false} LexConcat(a: Bytes, b: Bytes, x: Bytes, y: Bytes)
    requires |a| == |x|
    ensures LexLess(a + b, x + y) <==> LexLess(a, x) || (a == x && LexLess(b, y))
    ensures a + b == x + y <==> a == x && b == y
  {
    if a == [] {
      assert a + b == b && x + y == y;
    } else {
      assert a == (a + b)[..|a|] && b == (a + b)[|a|..] && x == (x + y)[..|a|] && y == (x + y)[|a|..];
      assert (a + b)[1..] == a[1..] + b && (x + y)[1..] == x[1..] + y;
      LexConcat(a[1..], b, x[1..], y);
      assert a == [a[0]] + a[1..] && x == [x[0]] + x[1..];
    }
  }

  lemma LexDec2(m: nat, n: nat)
    requires m < 100 && n < 100
    ensures LexLess(Dec2(m), Dec2(n)) <==> m < n
    ensures Dec2(m) == Dec2(n) <==> m == n
  {
    ReadDec2(m);
    ReadDec2(n);
    var a, b := [DigitChar(m / 10)], [DigitChar(n / 10)];
    var x, y := [DigitChar(m % 10)], [DigitChar(n % 10)];
    assert Dec2(m) == a + x && Dec2(n) == b + y;
    LexConcat(a, x, b, y);
    assert LexLess(a, b) <==> m / 10 < n / 10;
    assert LexLess(x, y) <==> m % 10 < n % 10;
  }

  lemma LexDec3(m: nat, n: nat)
    requires m < 1000 && n < 1000
    ensures LexLess(Dec3(m), Dec3(n)) <==> m < n
    ensures Dec3(m) == Dec3(n) <==> m == n
  {
    ReadDec3(m);
    ReadDec3(n);
    LexConcat([DigitChar(m / 100)], Dec2(m % 100), [DigitChar(n / 100)], Dec2(n % 100));
    LexDec2(m % 100, n % 100);
  }

  lemma LexDec4(m: nat, n: nat)
    requires m < 10000 && n < 10000
    ensures LexLess(Dec4(m), Dec4(n)) <==> m < n
    ensures Dec4(m) == Dec4(n) <==> m == n
  {
    ReadDec4(m);
    ReadDec4(n);
    LexConcat(Dec2(m / 100), Dec2(m % 100), Dec2(n / 100), Dec2(n % 100));
    LexDec2(m / 100, n / 100);
    LexDec2(m % 100, n % 100);
  }

  /** A common separator between two fields does not matter. */
  lemma LexSeparated(a: Bytes, sep: char, b: Bytes, x: Bytes, y: Bytes)
    requires |a| == |x|
    ensures LexLess(a + [sep] + b, x + [sep] + y) <==> LexLess(a, x) || (a == x && LexLess(b, y))
    ensures a + [sep] + b == x + [sep] + y <==> a == x && b == y
  {
    LexConcat(a + [sep], b, x + [sep], y);
    LexConcat(a, [sep], x, [sep]);
    assert !LexLess([sep], [sep]) by { assert [sep][1..] == []; }
  }
}
