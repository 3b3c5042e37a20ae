/** What the CRC register means: it is the remainder of a polynomial division over GF(2).
    A polynomial is the set of exponents whose coefficient is one, so addition is symmetric
    difference and multiplication by x adds one to every exponent. */
module Crc32Remainder {
  import opened Common
  import opened Crc32

  type Poly = set<nat>

  function Sum(a: Poly, b: Poly): Poly { (a - b) + (b - a) }

  function TimesX(p: Poly): Poly { set e | e in p :: e + 1 }

  /** The register read as a polynomial of degree below 32: bit k is the coefficient of x^(31-k). */
  function PolyOf(c: Word): Poly { set k: nat | k < 32 && c[k] :: 31 - k }

  /** The generator: the 33rd coefficient is implicit in the 32-bit constant. */
  function Generator(): Poly { PolyOf(POLYNOMIAL) + {32} }

  /** The generator of ITU-T V.42. */
  lemma {:induction false} GeneratorIsThatOfV42()
    ensures Generator() == {32, 26, 23, 22, 16, 12, 11, 10, 8, 7, 5, 4, 2, 1, 0}
  {
    var p := POLYNOMIAL;
    forall e: nat ensures e in Generator() <==> e in {32, 26, 23, 22, 16, 12, 11, 10, 8, 7, 5, 4, 2, 1, 0} {
      InPolyOf(p, e);
    }
  }

  /** The generator times the polynomial whose coefficients are q, highest power first. */
  function Multiple(g: Poly, q: seq<bool>): Poly {
    if q == [] then {}
    else Sum(TimesX(Multiple(g, q[..|q| - 1])), if q[|q| - 1] then g else {})
  }

  /** M(x) x^32 + I(x) x^n for an n-bit message M, first bit highest, and an initial register I. */
  function Dividend(initial: Word, bits: seq<bool>): Poly {
    if bits == [] then PolyOf(initial)
    else Sum(TimesX(Dividend(initial, bits[..|bits| - 1])), if bits[|bits| - 1] then {32} else {})
  }

  predicate DegreeBelow(p: Poly, n: nat) { forall e :: e in p ==> e < n }

  lemma {:induction false} SumAssociates(a: Poly, b: Poly, c: Poly)
    ensures Sum(Sum(a, b), c) == Sum(a, Sum(b, c))
    ensures Sum(a, b) == Sum(b, a)
  {
  }

  lemma {:induction false} TimesXOfSum(a: Poly, b: Poly)
    ensures TimesX(Sum(a, b)) == Sum(TimesX(a), TimesX(b))
  {
    forall e: nat ensures e in TimesX(Sum(a, b)) <==> e in Sum(TimesX(a), TimesX(b)) {
      InTimesX(a, e);
      InTimesX(b, e);
      InTimesX(Sum(a, b), e);
    }
  }

  lemma {:induction false} InTimesX(p: Poly, e: nat)
    ensures e in TimesX(p) <==> e > 0 && e - 1 in p
  {
    if e > 0 && e - 1 in p { assert (e - 1) + 1 == e; }
  }

  lemma {:induction false} InPolyOf(c: Word, e: nat)
    ensures e in PolyOf(c) <==> e < 32 && c[31 - e]
  {
    if e < 32 { assert 31 - (31 - e) == e; }
  }

  /** One register step is multiplication by x, reduced by the generator when the degree reaches 32. */
  lemma {:induction false} StepReduces(g: Poly, c: Word)
    requires g == Generator()
    ensures TimesX(PolyOf(c)) == Sum(if c[0] then g else {}, PolyOf(Step(c)))
  {
    var p, q, r := PolyOf(c), PolyOf(Step(c)), if c[0] then g else {};
    forall k | 0 <= k < 32 ensures Step(c)[k] == ((k < 31 && c[k + 1]) != (c[0] && POLYNOMIAL[k])) { StepBit(c, k); }
    forall e: nat ensures e in TimesX(p) <==> e in Sum(r, q) {
      ShiftedCoefficient(POLYNOMIAL, c, Step(c), e);
    }
  }

  lemma {:induction false} ShiftedCoefficient(poly: Word, c: Word, next: Word, e: nat)
    requires forall k :: 0 <= k < 32 ==> next[k] == ((k < 31 && c[k + 1]) != (c[0] && poly[k]))
    ensures e in TimesX(PolyOf(c)) <==> (c[0] && e in PolyOf(poly) + {32}) != (e in PolyOf(next))
  {
    InTimesX(PolyOf(c), e);
    if e > 0 { InPolyOf(c, e - 1); }
    InPolyOf(next, e);
    InPolyOf(poly, e);
  }

  lemma {:induction false} StepBit(c: Word, k: nat)
    requires k < 32
    ensures Step(c)[k] == ((k < 31 && c[k + 1]) != (c[0] && POLYNOMIAL[k]))
  {
    assert ShiftRight(c, 1)[k] == (k < 31 && c[k + 1]);
  }

  lemma {:induction false} AddBitToRegister(c: Word, bit: bool)
    ensures PolyOf(Xor(c, Widen([bit]))) == Sum(PolyOf(c), if bit then {31} else {})
    ensures Xor(c, Widen([bit]))[0] == (c[0] != bit)
  {
    var d := Xor(c, Widen([bit]));
    assert forall k :: 0 < k < 32 ==> d[k] == c[k];
    assert d[0] == (c[0] != bit);
    forall e: nat ensures e in PolyOf(d) <==> e in Sum(PolyOf(c), if bit then {31} else {}) {
      InPolyOf(c, e);
      InPolyOf(d, e);
    }
  }

  lemma {:induction false} AbsorbLast(c: Word, bits: seq<bool>, bit: bool)
    ensures AbsorbBits(c, bits + [bit]) == Step(Xor(AbsorbBits(c, bits), Widen([bit])))
  {
    AbsorbAppend(c, bits, [bit]);
    var d := AbsorbBits(c, bits);
    assert AbsorbBits(d, [bit]) == AbsorbBits(Step(Xor(d, Widen([bit]))), []);
  }

  /** Dividing the dividend by the generator leaves exactly the register as remainder. */
  lemma {:induction false} RegisterIsARemainder(g: Poly, c: Word, bits: seq<bool>) returns (q: seq<bool>)
    requires g == Generator()
    ensures |q| == |bits|
    ensures Dividend(c, bits) == Sum(Multiple(g, q), PolyOf(AbsorbBits(c, bits)))
    decreases |bits|
  {
    if bits == [] {
      q := [];
    } else {
      var m, bit := bits[..|bits| - 1], bits[|bits| - 1];
      assert bits == m + [bit];
      var q' := RegisterIsARemainder(g, c, m);
      var r := AbsorbBits(c, m);
      var d := Xor(r, Widen([bit]));
      q := q' + [d[0]];
      assert q[..|q| - 1] == q';
      AbsorbLast(c, m, bit);
      DivideByOneMoreBit(g, Multiple(g, q'), r, bit, d);
    }
  }

  lemma {:induction false} DivideByOneMoreBit(g: Poly, m: Poly, r: Word, bit: bool, d: Word)
    requires g == Generator() && d == Xor(r, Widen([bit]))
    ensures Sum(TimesX(Sum(m, PolyOf(r))), if bit then {32} else {})
      == Sum(Sum(TimesX(m), if d[0] then g else {}), PolyOf(Step(d)))
  {
    AddBitToRegister(r, bit);
    StepReduces(g, d);
    TimesXOfSum(PolyOf(r), if bit then {31} else {});
    assert TimesX({31}) == {32};
    TimesXOfSum(m, PolyOf(r));
    Regroup(TimesX(m), TimesX(PolyOf(r)), if bit then {32} else {}, if d[0] then g else {}, PolyOf(Step(d)));
  }

  lemma {:induction false} Regroup(m: Poly, r: Poly, b: Poly, g: Poly, s: Poly)
    requires Sum(r, b) == Sum(g, s)
    ensures Sum(Sum(m, r), b) == Sum(Sum(m, g), s)
  {
    SumAssociates(m, r, b);
    SumAssociates(m, g, s);
  }

  // ---------------------------------------------------------------- the remainder is unique

  lemma {:induction false} MultipleOfXor(g: Poly, p: seq<bool>, q: seq<bool>)
    requires |p| == |q|
    ensures Multiple(g, Xor(p, q)) == Sum(Multiple(g, p), Multiple(g, q))
    decreases |p|
  {
    if p == [] {
    } else {
      var n := |p| - 1;
      var p', q' := p[..n], q[..n];
      assert Xor(p, q)[..n] == Xor(p', q');
      MultipleOfXor(g, p', q');
      TimesXOfSum(Multiple(g, p'), Multiple(g, q'));
      var a, b := TimesX(Multiple(g, p')), TimesX(Multiple(g, q'));
      Interchange(a, b, if p[n] then g else {}, if q[n] then g else {});
      assert (if p[n] != q[n] then g else {}) == Sum(if p[n] then g else {}, if q[n] then g else {});
    }
  }

  lemma {:induction false} Interchange(a: Poly, b: Poly, c: Poly, d: Poly)
    ensures Sum(Sum(a, b), Sum(c, d)) == Sum(Sum(a, c), Sum(b, d))
  {
    forall e ensures e in Sum(Sum(a, b), Sum(c, d)) <==> e in Sum(Sum(a, c), Sum(b, d)) {
      if e in a {} else {}
    }
  }

  /** A multiple of the generator is zero or has degree at least 32. */
  lemma {:induction false} MultipleHasHighDegree(g: Poly, q: seq<bool>) returns (top: nat)
    requires 32 in g && DegreeBelow(g, 33)
    ensures DegreeBelow(Multiple(g, q), top + 1)
    ensures Multiple(g, q) != {} ==> top >= 32 && top in Multiple(g, q)
    decreases |q|
  {
    if q == [] {
      top := 0;
    } else {
      var n := |q| - 1;
      var m := Multiple(g, q[..n]);
      var t := MultipleHasHighDegree(g, q[..n]);
      if m == {} {
        assert TimesX(m) == {};
        top := 32;
      } else {
        assert t + 1 in TimesX(m);
        top := t + 1;
      }
    }
  }

  /** The remainder of degree below 32 does not depend on the quotient chosen, so
      RegisterIsARemainder pins the register down completely. */
  lemma {:induction false} RemainderIsUnique(g: Poly, p: seq<bool>, r: Poly, q: seq<bool>, s: Poly)
    requires 32 in g && DegreeBelow(g, 33)
    requires |p| == |q| && DegreeBelow(r, 32) && DegreeBelow(s, 32)
    requires Sum(Multiple(g, p), r) == Sum(Multiple(g, q), s)
    ensures r == s
  {
    var m := Multiple(g, Xor(p, q));
    MultipleOfXor(g, p, q);
    assert Sum(Multiple(g, p), Multiple(g, q)) == Sum(r, s) by {
      Transpose(Multiple(g, p), r, Multiple(g, q), s);
    }
    var top := MultipleHasHighDegree(g, Xor(p, q));
    assert DegreeBelow(Sum(r, s), 32);
    assert m == {};
    forall e ensures e in r <==> e in s { assert e !in Sum(r, s); }
  }

  lemma {:induction false} Transpose(a: Poly, r: Poly, b: Poly, s: Poly)
    requires Sum(a, r) == Sum(b, s)
    ensures Sum(a, b) == Sum(r, s)
  {
    forall e ensures e in Sum(a, b) <==> e in Sum(r, s) {
      assert e in Sum(a, r) <==> e in Sum(b, s);
    }
  }

  /** CRC-32 as ITU-T V.42 defines it: whoever divides the message polynomial, shifted by 32 and
      with the initial register added on top, finds the final register and nothing else. */
  lemma {:induction false} ChecksumIsTheRemainder(start: Word, data: seq<Octet>, g: Poly, q: seq<bool>, r: Poly)
    requires g == {32, 26, 23, 22, 16, 12, 11, 10, 8, 7, 5, 4, 2, 1, 0}
    requires |q| == 8 * |data| && DegreeBelow(r, 32)
    requires Dividend(Xor(start, ALL_ONES), MessageBits(data)) == Sum(Multiple(g, q), r)
    ensures r == PolyOf(Xor(Checksum(start, data), ALL_ONES))
  {
    var i, bits := Xor(start, ALL_ONES), MessageBits(data);
    GeneratorIsThatOfV42();
    var q' := RegisterIsARemainder(g, i, bits);
    XorTwice(AbsorbBits(i, bits), ALL_ONES);
    RemainderIsUnique(g, q, r, q', PolyOf(AbsorbBits(i, bits)));
  }
}
