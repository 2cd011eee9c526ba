/**
 Decimal text: `str(n)`, its value, and the comparison by length and lexical order
 that the size checks use instead of converting untrusted text to a number.
 */
module Decimal {
  import opened Prelude

  predicate IsDigit(b: byte) { 48 <= b <= 57 }

  predicate AllDigits(s: Bytes) {
    forall i :: 0 <= i < |s| ==> IsDigit(s[i])
  }

  /** `int(s)` for a digit string. */
  function Value(s: Bytes): nat
    requires AllDigits(s)
  {
    if s == [] then 0 else 10 * Value(s[..|s| - 1]) + (s[|s| - 1] - 48)
  }

  /** Decimal places: appending a digit multiplies by ten and adds it. */
  lemma PlacesAreDecimal(s: Bytes, d: nat)
    requires AllDigits(s) && d <= 9
    ensures Value([]) == 0 && AllDigits(s + ['0' as int + d]) && Value(s + ['0' as int + d]) == 10 * Value(s) + d
  {
    assert (s + ['0' as int + d])[..|s|] == s;
  }

  /** `str(n).encode("ascii")`. */
  function TextOf(n: nat): (s: Bytes)
    ensures s != [] && AllDigits(s)
    ensures Value(s) == n
    ensures s[0] == 48 ==> |s| == 1
  {
    if n < 10 then [48 + n]
    else
      var front := TextOf(n / 10);
      assert (front + [48 + n % 10])[..|front|] == front;
      front + [48 + n % 10]
  }

  /** `s.lstrip(b"0")`. */
  function StripZeros(s: Bytes): (t: Bytes)
    ensures |t| <= |s| && t == s[|s| - |t|..]
    ensures t != [] ==> t[0] != 48
  {
    if s != [] && s[0] == 48 then StripZeros(s[1..]) else s
  }

  /** `a > b` for byte strings. */
  predicate LexGreater(a: Bytes, b: Bytes) {
    a != [] && (b == [] || a[0] > b[0] || (a[0] == b[0] && LexGreater(a[1..], b[1..])))
  }

  /** The test that rejects a stripped digit string: it is too long or, at equal length, lexically greater. */
  predicate TextExceeds(significant: Bytes, budget: nat) {
    var text := TextOf(budget);
    |significant| > |text| || (|significant| == |text| && LexGreater(significant, text))
  }

  // --------------------------------------------------- digits and magnitudes

  function Pow10(n: nat): (p: nat)
    ensures p >= 1
  {
    if n == 0 then 1 else 10 * Pow10(n - 1)
  }

  lemma {:induction false} Pow10Grows(m: nat, n: nat)
    requires m <= n
    ensures Pow10(m) <= Pow10(n)
  {
    if m == n {
    } else {
      Pow10Grows(m, n - 1);
    }
  }

  lemma Distribute(d: int, p: int, v: int, last: int)
    ensures 10 * (d * p + v) + last == d * (10 * p) + (10 * v + last)
  {
  }

  /** The head digit counts its power of ten. */
  lemma {:induction false} ValueOfHead(s: Bytes)
    requires AllDigits(s) && s != []
    ensures Value(s) == (s[0] - 48) * Pow10(|s| - 1) + Value(s[1..])
  {
    if |s| <= 1 {
    } else {
      var front, last := s[..|s| - 1], s[|s| - 1] - 48;
      ValueOfHead(front);
      assert s[1..][..|s| - 2] == front[1..];
      assert Value(s[1..]) == 10 * Value(front[1..]) + last;
      Distribute(s[0] - 48, Pow10(|s| - 2), Value(front[1..]), last);
    }
  }

  lemma {:induction false} ValueBounded(s: Bytes)
    requires AllDigits(s)
    ensures Value(s) < Pow10(|s|)
    ensures s != [] && s[0] != 48 ==> Value(s) >= Pow10(|s| - 1)
  {
    if s == [] {
    } else {
      ValueBounded(s[..|s| - 1]);
    }
  }

  /** At equal length, lexical order of digits is numeric order. */
  lemma {:induction false} LexIsNumeric(a: Bytes, b: Bytes)
    requires AllDigits(a) && AllDigits(b) && |a| == |b|
    ensures LexGreater(a, b) <==> Value(a) > Value(b)
  {
    if a == [] {
    } else {
      ValueOfHead(a);
      ValueOfHead(b);
      LexIsNumeric(a[1..], b[1..]);
      ValueBounded(a[1..]);
      ValueBounded(b[1..]);
      HeadDecides(a[0] - 48, b[0] - 48, Pow10(|a| - 1), Value(a[1..]), Value(b[1..]));
    }
  }

  lemma HeadDecides(x: nat, y: nat, p: nat, u: nat, v: nat)
    requires u < p && v < p
    ensures x * p + u > y * p + v <==> x > y || (x == y && u > v)
  {
    if x > y {
      assert x * p >= (y + 1) * p == y * p + p;
    } else if x < y {
      assert y * p >= (x + 1) * p == x * p + p;
    }
  }

  lemma {:induction false} StripKeepsValue(s: Bytes)
    requires AllDigits(s)
    ensures Value(StripZeros(s)) == Value(s)
  {
    if s == [] || s[0] != 48 {
    } else {
      ValueOfHead(s);
      assert (s[0] - 48) * Pow10(|s| - 1) == 0 * Pow10(|s| - 1) == 0;
      StripKeepsValue(s[1..]);
    }
  }

  lemma LongerIsGreater(a: Bytes, b: Bytes)
    requires AllDigits(a) && AllDigits(b) && |a| > |b| && a[0] != 48
    ensures Value(a) > Value(b)
  {
    ValueBounded(a);
    ValueBounded(b);
    Pow10Grows(|b|, |a| - 1);
  }

  /** Comparing by length and then lexically is comparing numerically, absent leading zeros. */
  lemma LengthThenLexIsNumeric(a: Bytes, b: Bytes)
    requires AllDigits(a) && AllDigits(b) && a != [] && b != []
    requires a[0] != 48 && (b[0] == 48 ==> |b| == 1)
    ensures |a| > |b| || (|a| == |b| && LexGreater(a, b)) <==> Value(a) > Value(b)
  {
    if |a| > |b| {
      LongerIsGreater(a, b);
    } else if |a| < |b| {
      LongerIsGreater(b, a);
    } else {
      LexIsNumeric(a, b);
    }
  }

  /** The textual test is the numeric one, for digit strings of any length. */
  lemma TextExceedsIsNumeric(s: Bytes, budget: nat)
    requires AllDigits(s) && StripZeros(s) != []
    ensures TextExceeds(StripZeros(s), budget) <==> Value(s) > budget
  {
    StripKeepsValue(s);
    LengthThenLexIsNumeric(StripZeros(s), TextOf(budget));
  }
}
