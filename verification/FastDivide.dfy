/**
  Biased division of a signed word by a positive divisor, and the unsigned range test.

  The dividend's type has `2 * half` values.  Sums are computed in the unsigned counterpart of the
  wider of the two types, which has `wide` values: `2 * half`, or a multiple of it for a divisor of a
  wider type.  Types narrower than an `int`, whose sums are signed, are not modelled.
 */
module FastDivide {
  /** The largest multiple of the divisor that fits a positive signed word. */
  function Bias(half: nat, d: nat): int
    requires half > 0 && d > 0
  {
    (half - 1) / d * d
  }

  predicate IsSigned(half: int, x: int)
  {
    -half <= x < half
  }

  /** Conversion of an integer to an unsigned word. */
  function ToUnsigned(half: nat, x: int): (u: nat)
    requires half > 0
    ensures u < 2 * half
  {
    x % (2 * half)
  }

  /** Conversion of an unsigned word, or of an unsigned difference, to a signed one. */
  function ToSigned(half: nat, x: int): (s: int)
    requires half > 0
    ensures IsSigned(half, s)
  {
    var u := ToUnsigned(half, x);
    if u < half then u else u - 2 * half
  }

  /** A positive divisor, and the sizes of the types: `wide` is `2 * half * times`. */
  predicate Operands(half: nat, times: nat, d: nat)
  {
    half > 0 && times > 0 && 0 < d < half * times
  }

  function FastDivideBy(half: nat, times: nat, x: int, d: nat): int
    requires Operands(half, times, d)
  {
    ProductGrows(times, half);
    ToSigned(half, ToUnsigned(half * times, ToUnsigned(half * times, x + Bias(half, d)) / d - (half - 1) / d))
  }

  predicate FastDivisibleBy(half: nat, times: nat, x: int, d: nat)
    requires Operands(half, times, d)
  {
    ProductGrows(times, half);
    ToUnsigned(half * times, x + Bias(half, d)) % d == 0
  }

  lemma MultipleAtLeast(k: int, d: int)
    requires d > 0
    ensures k >= 1 ==> k * d >= d
    ensures k <= -1 ==> k * d <= -d
    ensures k >= 0 ==> k * d >= 0
  {
    assert k * d == (k - 1) * d + d;
    assert k * d == (k + 1) * d - d;
  }

  lemma DivModUnique(x: int, d: int, q: int, r: int)
    requires d > 0 && 0 <= r < d && x == q * d + r
    ensures x / d == q && x % d == r
  {
    var q', r' := x / d, x % d;
    assert (q' - q) * d == r - r' by {
      assert x == q' * d + r';
    }
    MultipleAtLeast(q' - q, d);
  }

  /** Adding a multiple of the divisor moves the quotient and keeps the remainder. */
  lemma AddMultiple(x: int, k: int, d: nat)
    requires d > 0
    ensures (x + k * d) / d == x / d + k && (x + k * d) % d == x % d
  {
    var q, r := x / d, x % d;
    assert x + k * d == (q + k) * d + r;
    DivModUnique(x + k * d, d, q + k, r);
  }

  lemma BiasBounds(half: nat, d: nat)
    requires half > 0 && d > 0
    ensures 0 <= Bias(half, d) < half
    ensures half <= Bias(half, d) + d
  {
    var q, r := (half - 1) / d, (half - 1) % d;
    assert half - 1 == q * d + r;
    MultipleAtLeast(q, d);
  }

  lemma NoWrap(half: nat, u: int)
    requires half > 0 && 0 <= u < 2 * half
    ensures ToUnsigned(half, u) == u
  {
    DivModUnique(u, 2 * half, 0, u);
  }

  lemma SignedIsItself(half: nat, x: int)
    requires half > 0 && IsSigned(half, x)
    ensures ToSigned(half, x) == x
  {
    if x < 0 {
      DivModUnique(x, 2 * half, -1, x + 2 * half);
    } else {
      NoWrap(half, x);
    }
  }

  lemma ProductGrows(q: nat, d: nat)
    requires d > 0
    ensures q * d >= q
  {
    if q > 0 {
      MultipleAtLeast(d - 1, q);
      assert q * d == (d - 1) * q + q;
    }
  }

  /** Floor division moves a value towards zero, or to minus one. */
  lemma QuotientShrinks(x: int, d: nat)
    requires d > 0
    ensures x >= 0 ==> 0 <= x / d <= x
    ensures x < 0 ==> x <= x / d < 0
  {
    var q, r := x / d, x % d;
    assert x == q * d + r;
    MultipleAtLeast(q, d);
    if q > 0 {
      ProductGrows(q, d);
    } else if q < 0 {
      ProductGrows(-q - 1, d);
      assert q * d == -((-q - 1) * d) - d;
    }
  }

  /** Wrapping at the wider size first changes nothing. */
  lemma NarrowedSigned(half: nat, times: nat, y: int)
    requires half > 0 && times > 0 && half * times > 0
    ensures ToSigned(half, ToUnsigned(half * times, y)) == ToSigned(half, y)
  {
    var w, q := 2 * (half * times), y / (2 * (half * times));
    assert y == q * w + y % w;
    assert q * w == q * times * (2 * half);
    AddMultiple(y % w, q * times, 2 * half);
  }

  lemma WideHoldsWord(half: nat, times: nat)
    requires half > 0 && times > 0
    ensures half <= half * times
  {
    ProductGrows(half, times);
  }

  /** Above minus the bias nothing wraps, and both functions are floor division's. */
  lemma BiasedDivision(half: nat, times: nat, x: int, d: nat)
    requires Operands(half, times, d) && IsSigned(half, x) && x >= -Bias(half, d)
    ensures 0 <= x + Bias(half, d) < 2 * half
    ensures FastDivideBy(half, times, x, d) == x / d
    ensures FastDivisibleBy(half, times, x, d) <==> x % d == 0
  {
    BiasBounds(half, d);
    WideHoldsWord(half, times);
    NoWrap(half * times, x + Bias(half, d));
    AddMultiple(x, (half - 1) / d, d);
    QuotientShrinks(x, d);
    NarrowedSigned(half, times, x / d);
    SignedIsItself(half, x / d);
  }

  /** Below it the biased value wraps to `wide - r`, where `r` is at most the divisor. */
  lemma BelowBias(half: nat, times: nat, x: int, d: nat)
    requires Operands(half, times, d) && IsSigned(half, x) && x < -Bias(half, d)
    ensures var r := -(x + Bias(half, d));
      && 1 <= r <= d && r <= half <= half * times
      && ToUnsigned(half * times, x + Bias(half, d)) == 2 * (half * times) - r
      && x / d == -((half - 1) / d) - 1
      && (x % d == 0 <==> r == d)
  {
    BiasBounds(half, d);
    WideHoldsWord(half, times);
    var r, k := -(x + Bias(half, d)), (half - 1) / d;
    DivModUnique(x + Bias(half, d), 2 * (half * times), -1, 2 * (half * times) - r);
    DivModUnique(x, d, -k - 1, d - r);
  }

  /**
    The exact domain of the division: every value from minus the bias up, and below it those whose
    wrapped quotient is one less than a multiple of the dividend's size.
   */
  lemma DivideExactDomain(half: nat, times: nat, x: int, d: nat)
    requires Operands(half, times, d) && IsSigned(half, x)
    ensures FastDivideBy(half, times, x, d) == x / d <==>
      (var r := -(x + Bias(half, d));
       r <= 0 || ((2 * (half * times) - r) / d + 1) % (2 * half) == 0)
  {
    if x >= -Bias(half, d) {
      BiasedDivision(half, times, x, d);
    } else {
      BelowBias(half, times, x, d);
      var k, u := (half - 1) / d, ToUnsigned(half * times, x + Bias(half, d));
      QuotientShrinks(half - 1, d);
      SignedIsItself(half, -k - 1);
      NarrowedSigned(half, times, u / d - k);
      WordsCongruent(half, u / d - k, -k - 1);
    }
  }

  /** Two integers make the same signed word exactly when they differ by a multiple of the word size. */
  lemma WordsCongruent(half: nat, a: int, b: int)
    requires half > 0
    ensures ToSigned(half, a) == ToSigned(half, b) <==> (a - b) % (2 * half) == 0
  {
    var w := 2 * half;
    var q, r := b / w, b % w;
    AddMultiple(a - b, q, w);
    assert b == q * w + r;
    var e, m := (a - b) / w, (a - b) % w;
    assert a - b == e * w + m;
    if r + m < w {
      assert a == (q + e) * w + (r + m);
      DivModUnique(a, w, q + e, r + m);
    } else {
      assert a == (q + e + 1) * w + (r + m - w);
      DivModUnique(a, w, q + e + 1, r + m - w);
    }
  }

  /** For operands of one size: every value from minus the bias up, and by 1 every value. */
  lemma DivideSameSizeExactDomain(half: nat, x: int, d: nat)
    requires Operands(half, 1, d) && IsSigned(half, x)
    ensures FastDivideBy(half, 1, x, d) == x / d <==> x >= -Bias(half, d) || d == 1
  {
    DivideExactDomain(half, 1, x, d);
    if x < -Bias(half, d) {
      BelowBias(half, 1, x, d);
      var u := 2 * (half * 1) + (x + Bias(half, d));
      WrappedQuotient(half, u, d);
      if u / d + 1 < 2 * half {
        DivModUnique(u / d + 1, 2 * half, 0, u / d + 1);
      } else {
        DivModUnique(u / d + 1, 2 * half, 1, 0);
      }
    }
  }

  lemma WrappedQuotient(half: nat, u: nat, d: nat)
    requires 0 < d < half && 2 * half - d <= u < 2 * half
    ensures 0 <= u / d < 2 * half
    ensures u / d == 2 * half - 1 <==> d == 1
  {
    QuotientShrinks(u, d);
    if d > 1 {
      var q := u / d;
      assert u == q * d + u % d;
      MultipleAtLeast(d - 1, q + 1);
      assert q * d == q + (d - 1) * (q + 1) - (d - 1);
    }
  }

  /**
    The exact domain of the divisibility test: below minus the bias it errs on exactly two
    distances from it, unless the divisor divides the wider word size.
   */
  lemma DivisibleExactDomain(half: nat, times: nat, x: int, d: nat)
    requires Operands(half, times, d) && IsSigned(half, x)
    ensures (FastDivisibleBy(half, times, x, d) <==> x % d == 0)
      <==> (var r, wide := -(x + Bias(half, d)), 2 * (half * times);
            r <= 0 || wide % d == 0 || (r != d && r != wide % d))
  {
    if x >= -Bias(half, d) {
      BiasedDivision(half, times, x, d);
    } else {
      BelowBias(half, times, x, d);
      WrappedRemainder(2 * (half * times), -(x + Bias(half, d)), d);
    }
  }

  lemma WrappedRemainder(w: nat, r: nat, d: nat)
    requires 1 <= r <= d <= w
    ensures (w - r) % d == 0 <==> (if r == d then w % d == 0 else w % d == r)
  {
    var q, m := w / d, w % d;
    assert w == q * d + m;
    if r <= m {
      DivModUnique(w - r, d, q, m - r);
    } else {
      assert w - r == (q - 1) * d + (m + d - r);
      if m + d - r < d {
        DivModUnique(w - r, d, q - 1, m + d - r);
      }
    }
  }

  /** The failing value just below the bound, for every divisor from 2 up. */
  lemma DivideFailsBelowBias(half: nat, d: nat)
    requires 1 < d < half
    ensures var x := -Bias(half, d) - 1; IsSigned(half, x) && FastDivideBy(half, 1, x, d) != x / d
  {
    BiasBounds(half, d);
    DivideSameSizeExactDomain(half, -Bias(half, d) - 1, d);
  }

  /** A count of nanoseconds that passes for a whole number of milliseconds. */
  lemma DivisibleFails()
    ensures var half, x, d := 0x8000_0000_0000_0000, -9223372036854551616, 1000000;
      IsSigned(half, x) && FastDivisibleBy(half, 1, x, d) && x % d == 448384
  {
    var half, x, d := 0x8000_0000_0000_0000, -9223372036854551616, 1000000;
    assert Bias(half, d) == 9223372036854000000;
    DivModUnique(x + Bias(half, d), 2 * (half * 1), -1, 2 * (half * 1) - 551616);
  }

  // ---- The range test ----

  /** `in_range`: one unsigned comparison of differences that wrap. */
  predicate InRange(half: nat, x: int, a: int, b: int)
    requires half > 0
  {
    ToUnsigned(half, x - a) < ToUnsigned(half, b - a)
  }

  /**
    For signed words, and for unsigned ones, the single comparison means `a <= x < b` exactly when
    the range is not reversed or the value lies between its swapped ends.
   */
  lemma InRangeExactDomain(half: nat, x: int, a: int, b: int)
    requires half > 0
    requires (IsSigned(half, x) && IsSigned(half, a) && IsSigned(half, b))
      || (0 <= x < 2 * half && 0 <= a < 2 * half && 0 <= b < 2 * half)
    ensures (InRange(half, x, a, b) <==> a <= x < b) <==> a <= b || b <= x < a
  {
    WrapOfDifference(half, x - a);
    WrapOfDifference(half, b - a);
  }

  lemma WrapOfDifference(half: nat, e: int)
    requires half > 0 && -2 * half < e < 2 * half
    ensures ToUnsigned(half, e) == if e >= 0 then e else e + 2 * half
  {
    if e >= 0 {
      NoWrap(half, e);
    } else {
      DivModUnique(e, 2 * half, -1, e + 2 * half);
    }
  }

  /** A reversed range that takes a value behind its start. */
  lemma InRangeFails()
    ensures InRange(0x8000_0000, 7, 5, 3) && !(5 <= 7 < 3)
  {
    InRangeExactDomain(0x8000_0000, 7, 5, 3);
  }
}
