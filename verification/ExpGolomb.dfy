/** Exp-Golomb codes (ITU-T H.264 section 9.1) on flat bit strings: the code that
    WriteExponentialGolomb emits, the decision ReadExponentialGolomb makes, and the two-way
    theorems connecting them. */
module ExpGolomb {
  import opened Common
  import opened BitStrings

  /** The largest value with a code, 2^32 - 2: one more would not fit in 32 bits when encoded. */
  const MAX_CODED: nat := 0xFFFF_FFFE

  function CountBits(v: nat): (n: nat)
    ensures v > 0 ==> n > 0
  {
    if v == 0 then 0 else 1 + CountBits(v / 2)
  }

  function Code(val: nat): seq<bool> {
    var n := CountBits(val + 1);
    Zeros(n - 1) + ToBits(val + 1, n)
  }

  /** The number of zero bits from pos to the next one bit or the end. */
  function ZeroRun(bits: seq<bool>, pos: nat): (z: nat)
    requires pos <= |bits|
    ensures pos + z <= |bits| && forall i :: pos <= i < pos + z ==> !bits[i]
    ensures pos + z < |bits| ==> bits[pos + z]
    decreases |bits| - pos
  {
    if pos < |bits| && !bits[pos] then 1 + ZeroRun(bits, pos + 1) else 0
  }

  /** The value read at pos and the position behind it, or None when the read fails. */
  function Decode(bits: seq<bool>, pos: nat): Option<(nat, nat)>
    requires pos <= |bits|
  {
    var z := ZeroRun(bits, pos);
    if z + 1 > 32 || pos + z + z + 1 > |bits| then None
    else
      LeadingOneBound(bits[pos + z..pos + z + z + 1]);
      Pow2Monotone(0, z);
      Some((Val(bits[pos + z..pos + z + z + 1]) - 1, pos + z + z + 1))
  }

  lemma {:induction false} CountBitsBounds(v: nat)
    requires v > 0
    ensures Pow2(CountBits(v) - 1) <= v < Pow2(CountBits(v))
  {
    if v == 1 {
    } else {
      CountBitsBounds(v / 2);
    }
  }

  lemma {:induction false} CountBitsUnique(v: nat, n: nat)
    requires n > 0 && Pow2(n - 1) <= v < Pow2(n)
    ensures CountBits(v) == n
  {
    var c := CountBits(v);
    CountBitsBounds(v);
    if c < n { Pow2Monotone(c, n - 1); } else if c > n { Pow2Monotone(n, c - 1); }
  }

  lemma {:induction false} ToBitsLeadingOne(v: nat, n: nat)
    requires n > 0 && Pow2(n - 1) <= v < Pow2(n)
    ensures ToBits(v, n)[0]
    decreases n
  {
    if n == 1 {
    } else {
      ToBitsLeadingOne(v / 2, n - 1);
    }
  }

  lemma {:induction false} Pow2Of32()
    ensures Pow2(32) == 0x1_0000_0000
  {
    assert Pow2(8) == 0x100;
    assert Pow2(16) == 0x1_0000;
    assert Pow2(24) == 0x100_0000;
  }

  /** The 2n-1 bits that WriteExponentialGolomb asks for are exactly the code. */
  lemma {:induction false} CodeIsOneField(val: nat)
    requires val <= MAX_CODED
    ensures 1 <= CountBits(val + 1) <= 32
    ensures Code(val) == ToBits(val + 1, 2 * CountBits(val + 1) - 1)
  {
    var n := CountBits(val + 1);
    CountBitsBounds(val + 1);
    Pow2Of32();
    if n > 32 { Pow2Monotone(32, n - 1); }
    ToBitsExtend(val + 1, n - 1, n);
  }

  lemma {:induction false} ZeroRunIs(bits: seq<bool>, pos: nat, z: nat)
    requires pos + z < |bits| && bits[pos + z]
    requires forall i :: pos <= i < pos + z ==> !bits[i]
    ensures ZeroRun(bits, pos) == z
    decreases z
  {
    if z == 0 {
    } else {
      ZeroRunIs(bits, pos + 1, z - 1);
    }
  }

  lemma {:induction false} SplitSlice(f: seq<bool>, pos: nat, end: nat, a: seq<bool>, b: seq<bool>)
    requires pos <= end <= |f| && f[pos..end] == a + b
    ensures pos + |a| <= end && f[pos..pos + |a|] == a && f[pos + |a|..end] == b
  {
    assert f[pos..pos + |a|] == f[pos..end][..|a|];
    assert f[pos + |a|..end] == f[pos..end][|a|..];
  }

  /** Every coded value reads back, at any bit offset, whatever surrounds it. */
  lemma {:induction false} CodeReadsBack(bits: seq<bool>, pos: nat, end: nat, val: nat)
    requires val <= MAX_CODED && pos <= end <= |bits| && bits[pos..end] == Code(val)
    ensures Decode(bits, pos) == Some((val, end))
  {
    var word := CodeWord(val);
    var z: nat := |word| - 1;
    SplitSlice(bits, pos, end, Zeros(z), word);
    ZerosInSlice(bits, pos, z);
    DecodeAt(bits, pos, z, word);
  }

  /** The significant part of a code: a word with a leading one. */
  lemma {:induction false} CodeWord(val: nat) returns (word: seq<bool>)
    requires val <= MAX_CODED
    ensures 1 <= |word| <= 32 && word[0] && Val(word) == val + 1
    ensures Code(val) == Zeros(|word| - 1) + word
  {
    var n := CountBits(val + 1);
    word := ToBits(val + 1, n);
    CodeIsOneField(val);
    CountBitsBounds(val + 1);
    ToBitsLeadingOne(val + 1, n);
    ValOfToBits(val + 1, n);
  }

  lemma {:induction false} ZerosInSlice(bits: seq<bool>, pos: nat, z: nat)
    requires pos + z <= |bits| && bits[pos..pos + z] == Zeros(z)
    ensures forall i :: pos <= i < pos + z ==> !bits[i]
  {
    forall i | pos <= i < pos + z ensures !bits[i] { assert bits[pos..pos + z][i - pos] == Zeros(z)[i - pos]; }
  }

  lemma {:induction false} DecodeAt(bits: seq<bool>, pos: nat, z: nat, word: seq<bool>)
    requires z < 32 && |word| == z + 1 && word[0] && pos + z + |word| <= |bits|
    requires bits[pos + z..pos + z + |word|] == word
    requires forall i :: pos <= i < pos + z ==> !bits[i]
    ensures Decode(bits, pos) == Some((Val(word) - 1, pos + z + z + 1))
  {
    assert bits[pos + z] == bits[pos + z..pos + z + |word|][0];
    ZeroRunIs(bits, pos, z);
  }

  /** Every successful read consumed exactly the code of the value it returned. */
  lemma {:induction false} ReadConsumedACode(bits: seq<bool>, pos: nat)
    requires pos <= |bits| && Decode(bits, pos).Some?
    ensures var (val, end) := Decode(bits, pos).value;
      val <= MAX_CODED && pos < end <= |bits| && bits[pos..end] == Code(val)
  {
    var z := ZeroRun(bits, pos);
    var word := bits[pos + z..pos + z + z + 1];
    WordIsCode(word);
    assert bits[pos..pos + z] == Zeros(z);
    assert bits[pos..pos + z + z + 1] == bits[pos..pos + z] + word;
  }

  /** A word with a leading one, and the zeros before it, are the code of its value less one. */
  lemma {:induction false} WordIsCode(word: seq<bool>)
    requires 1 <= |word| <= 32 && word[0]
    ensures 1 <= Val(word) <= MAX_CODED + 1
    ensures Code(Val(word) - 1) == Zeros(|word| - 1) + word
  {
    var z: nat, v := |word| - 1, Val(word);
    ValBound(word);
    LeadingOneBound(word);
    WordRange(z, v);
    CountBitsUnique(v, z + 1);
    ToBitsOfVal(word);
    CodeOf(v, word);
  }

  lemma {:induction false} CodeOf(v: nat, word: seq<bool>)
    requires v >= 1 && CountBits(v) == |word| && ToBits(v, |word|) == word
    ensures Code(v - 1) == Zeros(|word| - 1) + word
  {
  }

  lemma {:induction false} WordRange(z: nat, v: nat)
    requires z < 32 && Pow2(z) <= v < Pow2(z + 1)
    ensures 1 <= v <= MAX_CODED + 1
  {
    Pow2Of32();
    Pow2Monotone(z + 1, 32);
    Pow2Monotone(0, z);
  }

  /** A read succeeds if and only if some code starts at the position; then that code is unique. */
  lemma {:induction false} ReadSucceedsExactlyOnCodes(bits: seq<bool>, pos: nat, val: nat, end: nat)
    requires pos <= end <= |bits|
    ensures Decode(bits, pos) == Some((val, end)) <==> val <= MAX_CODED && bits[pos..end] == Code(val)
  {
    if Decode(bits, pos) == Some((val, end)) {
      ReadConsumedACode(bits, pos);
    } else if val <= MAX_CODED && bits[pos..end] == Code(val) {
      CodeReadsBack(bits, pos, end, val);
    }
  }

  /** The formula of section 9.1: behind z zeros and a one, z bits say how far the value is above the
      least one with so many zeros. */
  lemma {:induction false} CodeNumber(bits: seq<bool>, pos: nat, z: nat)
    requires pos + z + z < |bits| && z < 32 && bits[pos + z]
    requires forall i :: pos <= i < pos + z ==> !bits[i]
    ensures Decode(bits, pos).Some? && Decode(bits, pos).value.1 == pos + 2 * z + 1
    ensures Decode(bits, pos).value.0 == Pow2(z) + Val(bits[pos + z + 1..pos + z + z + 1]) - 1
  {
    var info := bits[pos + z + 1..pos + z + z + 1];
    var word := bits[pos + z..pos + z + z + 1];
    assert word == [true] + info;
    DecodeAt(bits, pos, z, word);
    ValIsPositional(true, info);
  }

  /** The first codes of Table 9-2. */
  lemma {:induction false} FirstCodes(a: nat, b: nat, c: nat, d: nat)
    requires a == 0 && b == 1 && c == 2 && d == 3
    ensures Code(a) == [true] && Code(b) == [false, true, false] && Code(c) == [false, true, true]
    ensures Code(d) == [false, false, true, false, false]
  {
  }

  function Codes(vals: seq<nat>): seq<bool> {
    if vals == [] then [] else Code(vals[0]) + Codes(vals[1..])
  }

  /** Reading n values in a row. */
  function DecodeMany(bits: seq<bool>, pos: nat, n: nat): Option<(seq<nat>, nat)>
    requires pos <= |bits|
    decreases n, pos
  {
    if n == 0 then Some(([], pos))
    else match Decode(bits, pos)
      case None => None
      case Some(first) =>
        match DecodeMany(bits, first.1, n - 1)
        case None => None
        case Some(rest) => Some(([first.0] + rest.0, rest.1))
  }

  /** A concatenation of codes has one reading only, wherever it stands. */
  lemma {:induction false} CodesReadBack(bits: seq<bool>, pos: nat, end: nat, vals: seq<nat>)
    requires pos <= end <= |bits| && bits[pos..end] == Codes(vals)
    requires forall i :: 0 <= i < |vals| ==> vals[i] <= MAX_CODED
    ensures DecodeMany(bits, pos, |vals|) == Some((vals, end))
    decreases |vals|
  {
    if vals == [] {
    } else {
      var mid: nat := pos + |Code(vals[0])|;
      SplitSlice(bits, pos, end, Code(vals[0]), Codes(vals[1..]));
      ReadSucceedsExactlyOnCodes(bits, pos, vals[0], mid);
      CodesReadBack(bits, mid, end, vals[1..]);
      DecodeManyStep(bits, pos, vals[0], mid, vals[1..], end);
      assert vals == [vals[0]] + vals[1..];
    }
  }

  lemma {:induction false} DecodeManyStep(bits: seq<bool>, pos: nat, val: nat, mid: nat, rest: seq<nat>, end: nat)
    requires pos <= |bits| && mid <= |bits| && Decode(bits, pos) == Some((val, mid))
    requires DecodeMany(bits, mid, |rest|) == Some((rest, end))
    ensures DecodeMany(bits, pos, |rest| + 1) == Some(([val] + rest, end))
  {
  }

  // ---------------------------------------------------------------- signed mapping (section 9.1.1)

  /** The mapping of ReadSignedExponentialGolomb: 0, 1, -1, 2, -2, ... */
  function SignedOf(u: nat): int {
    if u % 2 == 0 then -(u / 2) else (u + 1) / 2
  }

  function UnsignedOf(s: int): nat {
    if s <= 0 then -2 * s else 2 * s - 1
  }

  /** Table 9-3: odd codes are positive, even ones negative or zero. */
  lemma {:induction false} SignedTable(k: nat)
    ensures SignedOf(2 * k) == -(k as int) && SignedOf(2 * k + 1) == k + 1
    ensures UnsignedOf(-(k as int)) == 2 * k && UnsignedOf(k + 1) == 2 * k + 1
  {
  }

  /** The mapping is a bijection between the coded values and the 32-bit integers above the
      least one, so neither the negation nor the increment can overflow. */
  lemma {:induction false} SignedIsABijection(u: nat, s: int)
    ensures SignedOf(u) == s <==> UnsignedOf(s) == u
    ensures u <= MAX_CODED <==> -0x7FFF_FFFF <= SignedOf(u) <= 0x7FFF_FFFF
  {
  }
}
