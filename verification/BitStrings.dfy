/** Machine words as bit strings, most significant bit first, and the numbers they stand for.
    Shifts and masks of a fixed-width C integer are sequence operations of the same width. */
module BitStrings {
  import opened Common

  type Byte = b: seq<bool> | |b| == 8 witness [true, true, true, true, true, true, true, true]

  function Val(s: seq<bool>): nat {
    if s == [] then 0 else 2 * Val(s[..|s| - 1]) + if s[|s| - 1] then 1 else 0
  }

  /** The n low bits of v. */
  function ToBits(v: nat, n: nat): (s: seq<bool>)
    ensures |s| == n
    decreases n, v
  {
    if n == 0 then [] else ToBits(v / 2, n - 1) + [v % 2 == 1]
  }

  function And(a: seq<bool>, b: seq<bool>): (s: seq<bool>)
    requires |a| == |b|
    ensures |s| == |a| && forall i :: 0 <= i < |a| ==> s[i] == (a[i] && b[i])
  {
    if a == [] then [] else [a[0] && b[0]] + And(a[1..], b[1..])
  }

  function Or(a: seq<bool>, b: seq<bool>): (s: seq<bool>)
    requires |a| == |b|
    ensures |s| == |a| && forall i :: 0 <= i < |a| ==> s[i] == (a[i] || b[i])
  {
    if a == [] then [] else [a[0] || b[0]] + Or(a[1..], b[1..])
  }

  function Not(a: seq<bool>): (s: seq<bool>)
    ensures |s| == |a| && forall i :: 0 <= i < |a| ==> s[i] == !a[i]
  {
    if a == [] then [] else [!a[0]] + Not(a[1..])
  }

  function Shl(w: seq<bool>, n: nat): (s: seq<bool>)
    requires n <= |w|
    ensures |s| == |w|
  {
    w[n..] + Zeros(n)
  }

  function Shr(w: seq<bool>, n: nat): (s: seq<bool>)
    requires n <= |w|
    ensures |s| == |w|
  {
    Zeros(n) + w[..|w| - n]
  }

  /** Zero extension to width n. */
  function Extend(w: seq<bool>, n: nat): (s: seq<bool>)
    requires |w| <= n
    ensures |s| == n
  {
    Zeros(n - |w|) + w
  }

  /** Truncation to the low n bits. */
  function Truncate(w: seq<bool>, n: nat): (s: seq<bool>)
    requires n <= |w|
    ensures |s| == n
  {
    w[|w| - n..]
  }

  // ---------------------------------------------------------------- values

  lemma {:induction false} ToBitsOfVal(s: seq<bool>)
    ensures ToBits(Val(s), |s|) == s
  {
    if s == [] {
    } else {
      var t, b := s[..|s| - 1], s[|s| - 1];
      ToBitsOfVal(t);
      assert Val(s) / 2 == Val(t) && (Val(s) % 2 == 1) == b;
      assert s == t + [b];
    }
  }

  lemma {:induction false} ValOfToBits(v: nat, n: nat)
    requires v < Pow2(n)
    ensures Val(ToBits(v, n)) == v
    decreases n
  {
    if n == 0 {
    } else {
      ValOfToBits(v / 2, n - 1);
      assert ToBits(v, n)[..n - 1] == ToBits(v / 2, n - 1);
    }
  }

  lemma {:induction false} ValBound(s: seq<bool>)
    ensures Val(s) < Pow2(|s|)
  {
    if s == [] {
    } else {
      ValBound(s[..|s| - 1]);
    }
  }

  /** The first bit has the highest place: read from the front, a bit string is a binary number. */
  lemma {:induction false} ValIsPositional(b: bool, s: seq<bool>)
    ensures Val([b] + s) == (if b then Pow2(|s|) else 0) + Val(s)
    decreases |s|
  {
    var t := [b] + s;
    if s == [] {
      assert t[..0] == [];
    } else {
      ValIsPositional(b, s[..|s| - 1]);
      assert t[..|t| - 1] == [b] + s[..|s| - 1];
    }
  }

  /** Leading zeros do not count. */
  lemma {:induction false} ValExtend(n: nat, s: seq<bool>)
    ensures Val(Zeros(n) + s) == Val(s)
    decreases n + |s|
  {
    if s != [] {
      ValExtend(n, s[..|s| - 1]);
      assert (Zeros(n) + s)[..n + |s| - 1] == Zeros(n) + s[..|s| - 1];
    } else if n > 0 {
      ValExtend(n - 1, []);
      assert (Zeros(n) + [])[..n - 1] == Zeros(n - 1) + [];
    }
  }

  /** A number that fits in n bits has zeros above them. */
  lemma {:induction false} ToBitsExtend(v: nat, m: nat, n: nat)
    requires v < Pow2(n)
    ensures ToBits(v, m + n) == Zeros(m) + ToBits(v, n)
    decreases n
  {
    ValOfToBits(v, n);
    ValExtend(m, ToBits(v, n));
    ToBitsOfVal(Zeros(m) + ToBits(v, n));
  }

  /** The low n bits of a wider field. */
  lemma {:induction false} ToBitsTruncate(v: nat, m: nat, n: nat)
    ensures ToBits(v, m + n)[m..] == ToBits(v, n)
    decreases n
  {
    if n == 0 {
    } else {
      ToBitsTruncate(v / 2, m, n - 1);
      assert ToBits(v, m + n)[m..] == ToBits(v / 2, m + (n - 1))[m..] + [v % 2 == 1];
    }
  }

  lemma {:induction false} Pow2Monotone(m: nat, n: nat)
    requires m <= n
    ensures Pow2(m) <= Pow2(n)
    decreases n - m
  {
    if m == n {
    } else {
      Pow2Monotone(m + 1, n);
    }
  }

  /** A leading one makes the value at least half of the range. */
  lemma {:induction false} LeadingOneBound(s: seq<bool>)
    requires s != [] && s[0]
    ensures Pow2(|s| - 1) <= Val(s)
    decreases |s|
  {
    if |s| == 1 {
    } else {
      LeadingOneBound(s[..|s| - 1]);
    }
  }

  // ---------------------------------------------------------------- byte sequences

  /** All bits of a byte sequence in order. */
  function Flat(bytes: seq<Byte>): (s: seq<bool>)
    ensures |s| == 8 * |bytes|
  {
    if bytes == [] then [] else bytes[0] + Flat(bytes[1..])
  }

  lemma {:induction false} FlatAt(bytes: seq<Byte>, i: nat)
    requires i < |bytes|
    ensures Flat(bytes)[8 * i..8 * i + 8] == bytes[i]
    decreases |bytes|
  {
    if i == 0 {
    } else {
      FlatAt(bytes[1..], i - 1);
      assert Flat(bytes)[8 * i..8 * i + 8] == Flat(bytes[1..])[8 * (i - 1)..8 * (i - 1) + 8];
    }
  }

  lemma {:induction false} FlatUpdate(bytes: seq<Byte>, i: nat, b: Byte)
    requires i < |bytes|
    ensures Flat(bytes[i := b]) == Flat(bytes)[..8 * i] + b + Flat(bytes)[8 * i + 8..]
    decreases |bytes|
  {
    var c := bytes[i := b];
    if i > 0 {
      assert c[1..] == bytes[1..][i - 1 := b];
      FlatUpdate(bytes[1..], i - 1, b);
    } else {
      assert c[1..] == bytes[1..];
    }
  }
}
