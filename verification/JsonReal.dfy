/** The value of a number of the grammar, and which numbers are too large for a double. */
module JsonReal {
  import opened Bytes
  import opened JsonNumber

  /** A power of ten, also with a negative exponent. */
  function TenTo(e: int): real {
    PowPositive(if e < 0 then -e else e);
    if e >= 0 then Pow(10, e) as real else 1.0 / (Pow(10, -e) as real)
  }

  lemma PowPositive(n: nat)
    ensures Pow(10, n) > 0
  {
    PowGrows(10, 0, n);
  }

  /** 0.d1d2d3... */
  function FractionValue(d: seq<Byte>): real
    requires AllDigits(d)
  {
    if |d| == 0 then 0.0 else ((d[0] - 0x30) as real + FractionValue(d[1..])) / 10.0
  }

  /** The digits behind the point, if there is one. */
  function FractionDigits(frac: seq<Byte>): (d: seq<Byte>)
    requires GrammarFrac(frac)
    ensures AllDigits(d)
  {
    if |frac| == 0 then [] else frac[1..]
  }

  function ExponentValue(exp: seq<Byte>): int
    requires GrammarExp(exp)
  {
    if |exp| == 0 then 0
    else if exp[1] == MINUS then -(NatValue(exp[2..]) as int)
    else if exp[1] == PLUS then NatValue(exp[2..])
    else NatValue(exp[1..])
  }

  /** Integer part and fraction, times ten to the power of the exponent, by the parts of section 6 of RFC 8259; without
      the sign. */
  function ValueByParts(whole: seq<Byte>, frac: seq<Byte>, exp: seq<Byte>): real
    requires GrammarInt(whole) && GrammarFrac(frac) && GrammarExp(exp)
  {
    IntDigits(whole);
    (NatValue(whole) as real + FractionValue(FractionDigits(frac))) * TenTo(ExponentValue(exp))
  }

  lemma IntDigits(s: seq<Byte>)
    requires GrammarInt(s)
    ensures AllDigits(s)
  {
  }

  // ---- scaling

  lemma TenToNext(e: int)
    ensures TenTo(e + 1) == TenTo(e) * 10.0
  {
    hide Pow;
    PowNone(10);
    if e >= 0 {
      PowNext(10, e);
    } else {
      PowNext(10, -e - 1);
      PowPositive(-e - 1);
      PowPositive(-e);
      Inverse(Pow(10, -e - 1) as real, Pow(10, -e) as real);
    }
  }

  lemma Inverse(x: real, y: real)
    requires x > 0.0 && y == 10.0 * x
    ensures 1.0 / x == 1.0 / y * 10.0
  {
    assert 1.0 / y * 10.0 * x == 1.0 / y * y == 1.0;
  }

  lemma {:induction false} ScaleIs(x: real, e: int)
    ensures Scale(x, e) == x * TenTo(e)
    decreases if e < 0 then -e else e
  {
    hide TenTo;
    TenToZero();
    if e > 0 {
      ScaleIs(x * 10.0, e - 1);
      TenToNext(e - 1);
      Regrouped(x, 10.0, TenTo(e - 1));
    } else if e < 0 {
      ScaleIs(x / 10.0, e + 1);
      TenToNext(e);
      Regrouped(x / 10.0, 10.0, TenTo(e));
    }
  }

  lemma TenToZero()
    ensures TenTo(0) == 1.0
  {
  }

  lemma Regrouped(x: real, y: real, z: real)
    ensures x * y * z == x * (z * y)
  {
  }

  lemma {:induction false} TenToSum(e: int, n: nat)
    ensures TenTo(e - n) * (Pow(10, n) as real) == TenTo(e)
    decreases n
  {
    hide TenTo, Pow;
    PowNone(10);
    if n > 0 {
      TenToSum(e, n - 1);
      TenToNext(e - n);
      PowNext(10, n - 1);
      assert Pow(10, n) as real == 10.0 * (Pow(10, n - 1) as real);
      Regrouped(TenTo(e - n), 10.0, Pow(10, n - 1) as real);
    }
  }

  // ---- digits

  lemma {:induction false} NatValueConcat(a: seq<Byte>, b: seq<Byte>)
    requires AllDigits(a) && AllDigits(b)
    ensures AllDigits(a + b) && NatValue(a + b) == NatValue(a) * Pow(10, |b|) + NatValue(b)
    decreases |b|
  {
    hide Pow;
    PowNone(10);
    if |b| == 0 {
      assert a + b == a;
    } else {
      var n := |b| - 1;
      NatValueConcat(a, b[..n]);
      PowNext(10, n);
      assert (a + b)[..|a + b| - 1] == a + b[..n];
      Distribute(NatValue(a), Pow(10, n), NatValue(b[..n]), b[n] - 0x30);
    }
  }

  lemma Distribute(x: nat, p: nat, y: nat, d: nat)
    ensures (x * p + y) * 10 + d == x * (10 * p) + (y * 10 + d)
  {
  }

  lemma {:induction false} FractionIs(d: seq<Byte>)
    requires AllDigits(d)
    ensures FractionValue(d) * (Pow(10, |d|) as real) == NatValue(d) as real
    decreases |d|
  {
    hide Pow, NatValue;
    PowNone(10);
    if |d| == 0 {
      NoDigits();
    } else {
      FractionIs(d[1..]);
      PowNext(10, |d| - 1);
      assert [d[0]] + d[1..] == d;
      NatValueConcat([d[0]], d[1..]);
      OneDigit(d[0]);
      FractionSum(d[0] - 0x30, FractionValue(d[1..]), Pow(10, |d| - 1), NatValue(d[1..]));
    }
  }

  lemma NoDigits()
    ensures NatValue([]) == 0
  {
  }

  lemma OneDigit(c: Byte)
    requires IsDigit(c)
    ensures NatValue([c]) == c - 0x30
  {
    assert [c][..0] == [];
  }

  lemma FractionSum(c: nat, f: real, p: nat, n: nat)
    requires f * (p as real) == n as real
    ensures (c as real + f) / 10.0 * ((10 * p) as real) == (c * p + n) as real
  {
    CastProduct(c, p);
    FractionStep(c as real, f, p as real);
  }

  lemma CastProduct(a: nat, b: nat)
    ensures (a * b) as real == a as real * b as real
  {
  }

  lemma FractionStep(d: real, f: real, p: real)
    ensures (d + f) / 10.0 * (10.0 * p) == d * p + f * p
  {
  }

  /** Moving the point behind the fraction. */
  lemma PointMoved(a: seq<Byte>, f: seq<Byte>, e: int)
    requires AllDigits(a) && AllDigits(f)
    ensures AllDigits(a + f)
    ensures NatValue(a + f) as real * TenTo(e - |f|) == (NatValue(a) as real + FractionValue(f)) * TenTo(e)
  {
    hide TenTo, Pow, NatValue, FractionValue;
    NatValueConcat(a, f);
    FractionIs(f);
    TenToSum(e, |f|);
    var p := Pow(10, |f|);
    CastProduct(NatValue(a), p);
    MovePoint(NatValue(a) as real, FractionValue(f), p as real, TenTo(e - |f|));
  }

  lemma MovePoint(x: real, f: real, p: real, t: real)
    ensures (x * p + f * p) * t == (x + f) * (t * p)
  {
    assert (x * p + f * p) * t == (x + f) * p * t;
    Regrouped(x + f, p, t);
  }

  // ---- the value that the overflow test is about

  lemma ExponentIs(exp: seq<Byte>)
    requires GrammarExp(exp)
    ensures Exponent(exp) == ExponentValue(exp)
  {
    if |exp| > 0 {
      var d := if exp[1] == MINUS || exp[1] == PLUS then exp[2..] else exp[1..];
      assert d + [] == d && d[..|d|] == d;
      assert d == exp[1..] ==> d[0] == exp[1];
      DigitRunIs(d, []);
    }
  }

  /** What is compared with the greatest double is the value of the number. */
  lemma MagnitudeIs(s: seq<Byte>, i: nat, j: nat, k: nat)
    requires NumberParts(s, i, j, k)
    ensures Magnitude(s) == ValueByParts(s[i..j], s[j..k], s[k..])
  {
    hide GrammarInt, GrammarFrac, GrammarExp, NatValue, FractionValue, TenTo, Scale, DigitRun, Exponent, ExponentValue,
         AllDigits, FractionDigits, ValueByParts;
    var a, f, e := s[i..j], FractionDigits(s[j..k]), ExponentValue(s[k..]);
    IntDigits(a);
    SignAndInt(s, i, j, k);
    assert s[i..][..j - i] == a;
    ExponentIs(s[k..]);
    PointMoved(a, f, e);
    ByParts(s, i, j, k);
    if j < k {
      FractionRun(s, j, k);
      assert s[j + 1..][..k - j - 1] == f;
      ScaleIs(NatValue(a + f) as real, e - |f|);
    } else {
      NoFraction(s[j..k]);
      assert a + f == a;
      ScaleIs(NatValue(a) as real, e);
    }
  }

  lemma ByParts(s: seq<Byte>, i: nat, j: nat, k: nat)
    requires NumberParts(s, i, j, k)
    ensures AllDigits(s[i..j]) && AllDigits(FractionDigits(s[j..k]))
    ensures ValueByParts(s[i..j], s[j..k], s[k..]) ==
            (NatValue(s[i..j]) as real + FractionValue(FractionDigits(s[j..k]))) * TenTo(ExponentValue(s[k..]))
  {
    hide GrammarInt, GrammarFrac, GrammarExp, NatValue, FractionValue, TenTo, ExponentValue, FractionDigits;
    IntDigits(s[i..j]);
  }

  lemma NoFraction(frac: seq<Byte>)
    requires GrammarFrac(frac) && |frac| == 0
    ensures FractionDigits(frac) == []
  {
  }

  lemma SignAndInt(s: seq<Byte>, i: nat, j: nat, k: nat)
    requires NumberParts(s, i, j, k)
    ensures |s| > 0 && i == (if s[0] == MINUS then 1 else 0) && DigitRun(s[i..]) == j - i
    ensures j < |s| && s[j] == DOT <==> j < k
  {
    hide DigitRun;
    var a := s[i..j];
    IntDigits(a);
    assert s[i] == a[0];
    assert i > 0 ==> s[..i][0] == s[0];
    assert j < k ==> s[j..k][0] == s[j];
    assert k < |s| ==> s[k..][0] == s[k];
    assert s[i..] == a + s[j..];
    DigitRunIs(a, s[j..]);
  }

  lemma FractionRun(s: seq<Byte>, j: nat, k: nat)
    requires j < k <= |s| && GrammarFrac(s[j..k]) && GrammarExp(s[k..])
    ensures s[j + 1..k] == FractionDigits(s[j..k]) && DigitRun(s[j + 1..]) == k - j - 1
  {
    hide DigitRun;
    var d := s[j..k][1..];
    assert d == s[j + 1..k];
    assert k < |s| ==> s[k..][0] == s[k];
    assert s[j + 1..] == d + s[k..];
    DigitRunIs(d, s[k..]);
  }

  /** So a number overflows exactly if its value is halfway from the greatest double to 2 to the power of 1024, or
      more. */
  lemma OverflowsExactly(s: seq<Byte>, i: nat, j: nat, k: nat)
    requires NumberParts(s, i, j, k)
    ensures Overflows(s) <==> ValueByParts(s[i..j], s[j..k], s[k..]) >= (Pow(2, 1024) - Pow(2, 970)) as real
  {
    hide ValueByParts, Magnitude, Pow, NumberParts;
    MagnitudeIs(s, i, j, k);
  }
}
