/** CRC-32 of crc32.cc: the bit-at-a-time definition, the table-driven form that refines it, and
    the error-detection theorem. A 32-bit word is the sequence of its bits, least significant
    first, so w[1..] + [false] is a right shift by one and w[..8] is the low byte. */
module Crc32 {
  import opened Common

  type Word = w: seq<bool> | |w| == 32 witness Repeat(false, 32)

  // ---------------------------------------------------------------- words

  /** The k low bits of n, least significant first. */
  function BitsOf(n: nat, k: nat): (s: seq<bool>)
    ensures |s| == k
    decreases k, n
  {
    if k == 0 then [] else [n % 2 == 1] + BitsOf(n / 2, k - 1)
  }

  function ValueOf(s: seq<bool>): nat {
    if s == [] then 0 else (if s[0] then 1 else 0) + 2 * ValueOf(s[1..])
  }

  function Xor(a: seq<bool>, b: seq<bool>): (s: seq<bool>)
    requires |a| == |b|
    ensures |s| == |a| && forall i :: 0 <= i < |a| ==> s[i] == (a[i] != b[i])
  {
    if a == [] then [] else [a[0] != b[0]] + Xor(a[1..], b[1..])
  }

  function ShiftRight(w: Word, n: nat): Word
    requires n <= 32
  {
    w[n..] + Zeros(n)
  }

  /** At most 32 bits widened to a word. */
  function Widen(bits: seq<bool>): Word
    requires |bits| <= 32
  {
    bits + Zeros(32 - |bits|)
  }

  /** The CRC-32 polynomial 0xEDB88320, in reversed form: bit k stands for x^(31-k). */
  const POLYNOMIAL: Word := [
    false, false, false, false, false, true, false, false,
    true, true, false, false, false, false, false, true,
    false, false, false, true, true, true, false, true,
    true, false, true, true, false, true, true, true]
  const ALL_ONES: Word := Repeat(true, 32)

  lemma {:induction false} BitsOfValue(s: seq<bool>)
    ensures BitsOf(ValueOf(s), |s|) == s
  {
    if s == [] {
    } else {
      BitsOfValue(s[1..]);
      assert ValueOf(s) / 2 == ValueOf(s[1..]);
    }
  }

  lemma {:induction false} ValueOfBits(n: nat, k: nat)
    requires n < Pow2(k)
    ensures ValueOf(BitsOf(n, k)) == n
    decreases k
  {
    if k == 0 {
    } else {
      ValueOfBits(n / 2, k - 1);
    }
  }

  lemma {:induction false} ValueBound(s: seq<bool>)
    ensures ValueOf(s) < Pow2(|s|)
  {
    if s == [] {
    } else {
      ValueBound(s[1..]);
    }
  }

  lemma {:induction false} XorTwice(a: seq<bool>, b: seq<bool>)
    requires |a| == |b|
    ensures Xor(Xor(a, b), b) == a
  {
  }

  lemma {:induction false} XorAssociates(a: seq<bool>, b: seq<bool>, c: seq<bool>)
    requires |a| == |b| == |c|
    ensures Xor(Xor(a, b), c) == Xor(a, Xor(b, c))
  {
  }

  lemma {:induction false} XorCommutes(a: seq<bool>, b: seq<bool>)
    requires |a| == |b|
    ensures Xor(a, b) == Xor(b, a)
  {
  }

  lemma {:induction false} XorCancelsLeft(c: seq<bool>, x: seq<bool>, y: seq<bool>)
    requires |c| == |x| == |y| && Xor(c, x) == Xor(c, y)
    ensures x == y
  {
    assert forall i :: 0 <= i < |c| ==> Xor(c, x)[i] == Xor(c, y)[i];
  }

  // ---------------------------------------------------------------- bit-at-a-time definition

  function Step(c: Word): Word {
    if c[0] then Xor(POLYNOMIAL, ShiftRight(c, 1)) else ShiftRight(c, 1)
  }

  function Steps(c: Word, n: nat): Word
    decreases n, c
  {
    if n == 0 then c else Steps(Step(c), n - 1)
  }

  /** Absorbs message bits one by one: each is added to the lowest register bit before a step. */
  function AbsorbBits(c: Word, bits: seq<bool>): Word
    decreases |bits|
  {
    if bits == [] then c else AbsorbBits(Step(Xor(c, Widen([bits[0]]))), bits[1..])
  }

  /** The bits of a message in transmission order: each byte's least significant bit first. */
  function MessageBits(data: seq<Octet>): (s: seq<bool>)
    ensures |s| == 8 * |data|
  {
    if data == [] then [] else BitsOf(data[0], 8) + MessageBits(data[1..])
  }

  function Checksum(start: Word, data: seq<Octet>): Word {
    Xor(AbsorbBits(Xor(start, ALL_ONES), MessageBits(data)), ALL_ONES)
  }

  // ---------------------------------------------------------------- algebra of one step

  lemma {:induction false} ShiftRightXor(a: Word, b: Word, n: nat)
    requires n <= 32
    ensures ShiftRight(Xor(a, b), n) == Xor(ShiftRight(a, n), ShiftRight(b, n))
  {
  }

  lemma {:induction false} StepLinear(a: Word, b: Word)
    ensures Step(Xor(a, b)) == Xor(Step(a), Step(b))
  {
    var p, x, y := POLYNOMIAL, ShiftRight(a, 1), ShiftRight(b, 1);
    ShiftRightXor(a, b, 1);
    XorAssociates(p, x, y);
    XorAssociates(x, p, y);
    XorCommutes(x, p);
    XorAssociates(Xor(x, p), p, y);
    XorTwice(x, p);
    XorAssociates(Xor(x, p), p, y);
  }

  lemma {:induction false} StepsLinear(a: Word, b: Word, n: nat)
    ensures Steps(Xor(a, b), n) == Xor(Steps(a, n), Steps(b, n))
    decreases n
  {
    if n == 0 {
    } else {
      StepLinear(a, b);
      StepsLinear(Step(a), Step(b), n - 1);
    }
  }

  /** One step loses nothing: the top bit of the polynomial is set, so the top bit of the result
      tells which branch was taken. */
  lemma {:induction false} StepInjective(c: Word, d: Word)
    requires Step(c) == Step(d)
    ensures c == d
  {
    assert POLYNOMIAL[31];
    var x, y := ShiftRight(c, 1), ShiftRight(d, 1);
    assert c[0] == Step(c)[31] && d[0] == Step(d)[31];
    if c[0] { XorCancelsLeft(POLYNOMIAL, x, y); }
    assert c == [c[0]] + x[..31] && d == [d[0]] + y[..31];
  }

  lemma {:induction false} StepsInjective(c: Word, d: Word, n: nat)
    requires Steps(c, n) == Steps(d, n)
    ensures c == d
    decreases n
  {
    if n == 0 {
    } else {
      var c', d' := Step(c), Step(d);
      assert c' == d' by { StepsInjective(c', d', n - 1); }
      StepInjective(c, d);
    }
  }

  /** As many steps as there are low zero bits only shift. */
  lemma {:induction false} StepsShiftZeros(c: Word, n: nat)
    requires n <= 32 && forall i :: 0 <= i < n ==> !c[i]
    ensures Steps(c, n) == ShiftRight(c, n)
    decreases n
  {
    if n == 0 {
      assert ShiftRight(c, 0) == c;
    } else {
      var d := ShiftRight(c, 1);
      StepsShiftZeros(d, n - 1);
      assert ShiftRight(d, n - 1) == ShiftRight(c, n);
    }
  }

  /** Up to 32 message bits act as one xor onto the register followed by pure steps. */
  lemma {:induction false} AbsorbWindow(c: Word, bits: seq<bool>)
    requires |bits| <= 32
    ensures AbsorbBits(c, bits) == Steps(Xor(c, Widen(bits)), |bits|)
    decreases |bits|
  {
    if bits == [] {
      assert Xor(c, Widen([])) == c;
    } else {
      var b, t := Widen([bits[0]]), bits[1..];
      var high: Word := [false] + Widen(t)[..31];
      assert Xor(b, high) == Widen(bits);
      XorAssociates(c, b, high);
      StepLinear(Xor(c, b), high);
      assert ShiftRight(high, 1) == Widen(t);
      AbsorbWindow(Step(Xor(c, b)), t);
    }
  }

  lemma {:induction false} AbsorbAppend(c: Word, a: seq<bool>, b: seq<bool>)
    ensures AbsorbBits(c, a + b) == AbsorbBits(AbsorbBits(c, a), b)
    decreases |a|
  {
    if a == [] {
      assert a + b == b;
    } else {
      assert (a + b)[0] == a[0] && (a + b)[1..] == a[1..] + b;
      AbsorbAppend(Step(Xor(c, Widen([a[0]]))), a[1..], b);
    }
  }

  lemma {:induction false} MessageBitsAppend(a: seq<Octet>, b: seq<Octet>)
    ensures MessageBits(a + b) == MessageBits(a) + MessageBits(b)
  {
    if a == [] {
      assert a + b == b;
    } else {
      assert (a + b)[0] == a[0] && (a + b)[1..] == a[1..] + b;
      MessageBitsAppend(a[1..], b);
    }
  }

  /** Streaming: continuing from a finished checksum equals one pass over everything. */
  lemma {:induction false} ChecksumStreams(start: Word, a: seq<Octet>, b: seq<Octet>)
    ensures Checksum(Checksum(start, a), b) == Checksum(start, a + b)
  {
    var i := Xor(start, ALL_ONES);
    XorTwice(AbsorbBits(i, MessageBits(a)), ALL_ONES);
    MessageBitsAppend(a, b);
    AbsorbAppend(i, MessageBits(a), MessageBits(b));
  }

  // ---------------------------------------------------------------- the table-driven form

  function TableEntry(i: Octet): Word { Steps(Widen(BitsOf(i, 8)), 8) }

  /** The low byte of a word as a table index. */
  function LowByte(w: Word): Octet {
    ValueBound(w[..8]);
    assert Pow2(8) == 256;
    ValueOf(w[..8])
  }

  /** One byte through the table, as the loop body of UpdateCrc32 computes it. */
  function TableUpdate(c: Word, b: Octet): Word {
    Xor(TableEntry(LowByte(Xor(c, Widen(BitsOf(b, 8))))), ShiftRight(c, 8))
  }

  lemma {:induction false} TableUpdateIsBitwise(c: Word, b: Octet)
    ensures TableUpdate(c, b) == AbsorbBits(c, BitsOf(b, 8))
  {
    var bits := BitsOf(b, 8);
    var x := Xor(c, Widen(bits));
    var low, high := Widen(x[..8]), Zeros(8) + x[8..];
    assert x == Xor(low, high);
    BitsOfValue(x[..8]);
    StepsLinear(low, high, 8);
    StepsShiftZeros(high, 8);
    assert ShiftRight(high, 8) == ShiftRight(c, 8);
    AbsorbWindow(c, bits);
  }

  lemma {:induction false} ZeroOnlyFromZero(w: Word, z: Word, n: nat)
    requires n <= 32 && forall i :: 0 <= i < 32 ==> !z[i]
    ensures Steps(w, n) == z <==> w == z
  {
    StepsShiftZeros(z, n);
    assert ShiftRight(z, n) == z;
    if Steps(w, n) == z { StepsInjective(w, z, n); }
  }

  /** The sentinel test of line 25 is sound: in a filled table only entry 0 is zero. */
  lemma {:induction false} EntryIsZeroOnlyAtZero(i: Octet, z: Word)
    requires z == Zeros(32)
    ensures TableEntry(i) == z <==> i == 0
  {
    var bits := BitsOf(i, 8);
    assert Pow2(8) == 256;
    ValueOfBits(i, 8);
    ZeroValue(bits);
    assert bits == Widen(bits)[..8];
    assert bits == Zeros(8) <==> Widen(bits) == z;
    ZeroOnlyFromZero(Widen(bits), z, 8);
  }

  lemma {:induction false} ZeroValue(s: seq<bool>)
    ensures ValueOf(s) == 0 <==> s == Zeros(|s|)
  {
    if s == [] {
    } else {
      ZeroValue(s[1..]);
      assert s == [s[0]] + s[1..] && Zeros(|s|) == [false] + Zeros(|s| - 1);
    }
  }

  /** The static table, all zero until the first use fills it. */
  class Crc32Table {
    const table: array<Word>

    ghost predicate Filled()
      reads table
    {
      FilledBelow(256)
    }

    ghost predicate Untouched()
      reads table
    {
      table.Length == 256 && forall i: Octet :: table[i] == Zeros(32)
    }

    ghost predicate Valid()
      reads table
    {
      Filled() || Untouched()
    }

    constructor ()
      ensures Untouched() && fresh(table)
    {
      table := new Word[256](i => Zeros(32));
    }

    /** The inner loop of the table fill, lines 28 to 35. */
    static method ComputeEntry(i: Octet) returns (c: Word)
      ensures c == TableEntry(i)
    {
      c := Widen(BitsOf(i, 8));
      for j := 0 to 8
        invariant Steps(c, 8 - j) == TableEntry(i)
      {
        ghost var next := Step(c);
        assert Steps(c, 8 - j) == Steps(next, 8 - (j + 1));
        if c[0] {
          c := Xor(POLYNOMIAL, ShiftRight(c, 1));
        } else {
          c := ShiftRight(c, 1);
        }
        assert c == next;
      }
    }

    method EnsureCrc32TableInited()
      requires Valid()
      modifies table
      ensures Filled()
    {
      var last: Octet := table.Length - 1;
      EntryIsZeroOnlyAtZero(last, Zeros(32));
      if table[last] != Zeros(32) {
        return;
      }
      FillTable();
    }

    /** The outer loop of the table fill, lines 27 to 37. */
    method FillTable()
      requires table.Length == 256
      modifies table
      ensures Filled()
    {
      var i := 0;
      while i < 256
        invariant 0 <= i <= 256
        invariant FilledBelow(i)
      {
        StoreEntry(i);
        i := i + 1;
      }
    }

    method StoreEntry(i: nat)
      requires i < 256 && FilledBelow(i)
      modifies table
      ensures FilledBelow(i + 1)
    {
      ghost var before := table[..];
      var entry := ComputeEntry(i);
      table[i] := entry;
      assert table[..] == before[i := entry];
      OneMoreEntry(TableEntry, before, i, entry);
    }

    ghost predicate FilledBelow(n: nat)
      reads table
    {
      table.Length == 256 && StartsWith(TableEntry, table[..], n)
    }

    method UpdateCrc32(start: Word, buf: seq<Octet>) returns (crc: Word)
      requires Valid()
      modifies table
      ensures Filled()
      ensures crc == Checksum(start, buf)
    {
      EnsureCrc32TableInited();
      var c: Word := Xor(start, ALL_ONES);
      assert buf[..0] == [] && buf[..|buf|] == buf;
      for i := 0 to |buf|
        invariant Filled()
        invariant c == AbsorbBits(Xor(start, ALL_ONES), MessageBits(buf[..i]))
      {
        AbsorbOneMore(Xor(start, ALL_ONES), buf, i);
        c := Xor(table[LowByte(Xor(c, Widen(BitsOf(buf[i], 8))))], ShiftRight(c, 8));
      }
      crc := Xor(c, ALL_ONES);
    }
  }

  ghost predicate StartsWith(f: Octet -> Word, s: seq<Word>, n: nat) {
    |s| == 256 && forall i: Octet :: i < n ==> s[i] == f(i)
  }

  lemma {:induction false} OneMoreEntry(f: Octet -> Word, s: seq<Word>, n: nat, entry: Word)
    requires n < 256 && StartsWith(f, s, n) && entry == f(n)
    ensures StartsWith(f, s[n := entry], n + 1)
  {
  }

  lemma {:induction false} AbsorbOneMore(start: Word, buf: seq<Octet>, i: nat)
    requires i < |buf|
    ensures TableUpdate(AbsorbBits(start, MessageBits(buf[..i])), buf[i])
         == AbsorbBits(start, MessageBits(buf[..i + 1]))
  {
    assert buf[..i + 1] == buf[..i] + [buf[i]];
    MessageBitsAppend(buf[..i], [buf[i]]);
    assert MessageBits([buf[i]]) == BitsOf(buf[i], 8) + MessageBits([]) == BitsOf(buf[i], 8);
    AbsorbAppend(start, MessageBits(buf[..i]), BitsOf(buf[i], 8));
    TableUpdateIsBitwise(AbsorbBits(start, MessageBits(buf[..i])), buf[i]);
  }

  // ---------------------------------------------------------------- error detection

  lemma {:induction false} MessageBitsInjective(v: seq<Octet>, w: seq<Octet>)
    requires |v| == |w| && MessageBits(v) == MessageBits(w)
    ensures v == w
  {
    if v == [] {
    } else {
      assert MessageBits(v)[..8] == BitsOf(v[0], 8) && MessageBits(w)[..8] == BitsOf(w[0], 8);
      assert MessageBits(v)[8..] == MessageBits(v[1..]) && MessageBits(w)[8..] == MessageBits(w[1..]);
      assert Pow2(8) == 256;
      ValueOfBits(v[0], 8);
      ValueOfBits(w[0], 8);
      MessageBitsInjective(v[1..], w[1..]);
      assert v == [v[0]] + v[1..] && w == [w[0]] + w[1..];
    }
  }

  lemma {:induction false} AbsorbInjective(c: Word, d: Word, bits: seq<bool>)
    requires AbsorbBits(c, bits) == AbsorbBits(d, bits)
    ensures c == d
    decreases |bits|
  {
    if bits == [] {
    } else {
      var b := Widen([bits[0]]);
      AbsorbInjective(Step(Xor(c, b)), Step(Xor(d, b)), bits[1..]);
      StepInjective(Xor(c, b), Xor(d, b));
      XorTwice(c, b);
      XorTwice(d, b);
    }
  }

  lemma {:induction false} WindowInjective(c: Word, v: seq<bool>, w: seq<bool>)
    requires |v| == |w| <= 32 && AbsorbBits(c, v) == AbsorbBits(c, w)
    ensures v == w
  {
    AbsorbWindow(c, v);
    AbsorbWindow(c, w);
    StepsInjective(Xor(c, Widen(v)), Xor(c, Widen(w)), |v|);
    XorCancelsLeft(c, Widen(v), Widen(w));
    assert v == Widen(v)[..|v|] && w == Widen(w)[..|w|];
  }

  /** Two inputs that differ only inside a window of 32 consecutive bits, at any bit offset, never
      share a checksum. */
  lemma {:induction false} BitBurstIsDetected(start: Word, x: seq<Octet>, y: seq<Octet>, at: nat)
    requires |x| == |y| && x != y
    requires forall i :: 0 <= i < 8 * |x| && !(at <= i < at + 32) ==> MessageBits(x)[i] == MessageBits(y)[i]
    ensures Checksum(start, x) != Checksum(start, y)
  {
    var a, b := MessageBits(x), MessageBits(y);
    var lo := if at <= |a| then at else |a|;
    var hi := if at + 32 <= |a| then at + 32 else |a|;
    var p, v, w, s := a[..lo], a[lo..hi], b[lo..hi], a[hi..];
    assert b[..lo] == p && b[hi..] == s;
    assert a == p + v + s && b == p + w + s;
    if Checksum(start, x) == Checksum(start, y) {
      var i := Xor(start, ALL_ONES);
      XorTwice(AbsorbBits(i, a), ALL_ONES);
      XorTwice(AbsorbBits(i, b), ALL_ONES);
      SameRegisterSameWindow(i, p, v, w, s);
      MessageBitsInjective(x, y);
    }
  }

  lemma {:induction false} SameRegisterSameWindow(i: Word, p: seq<bool>, v: seq<bool>, w: seq<bool>, s: seq<bool>)
    requires |v| == |w| <= 32 && AbsorbBits(i, p + v + s) == AbsorbBits(i, p + w + s)
    ensures v == w
  {
    var c := AbsorbBits(i, p);
    AbsorbAppend(i, p + v, s);
    AbsorbAppend(i, p + w, s);
    AbsorbAppend(i, p, v);
    AbsorbAppend(i, p, w);
    AbsorbInjective(AbsorbBits(c, v), AbsorbBits(c, w), s);
    WindowInjective(c, v, w);
  }

  /** In particular a window of four consecutive bytes. */
  lemma {:induction false} BurstIsDetected(start: Word, x: seq<Octet>, y: seq<Octet>, at: nat)
    requires |x| == |y| && x != y
    requires forall i :: 0 <= i < |x| && !(at <= i < at + 4) ==> x[i] == y[i]
    ensures Checksum(start, x) != Checksum(start, y)
  {
    forall i | 0 <= i < 8 * |x| && !(8 * at <= i < 8 * at + 32) ensures MessageBits(x)[i] == MessageBits(y)[i] {
      MessageBitAt(x, i);
      MessageBitAt(y, i);
      assert x[i / 8] == y[i / 8];
    }
    BitBurstIsDetected(start, x, y, 8 * at);
  }

  lemma {:induction false} MessageBitAt(data: seq<Octet>, i: nat)
    requires i < 8 * |data|
    ensures MessageBits(data)[i] == BitsOf(data[i / 8], 8)[i % 8]
    decreases |data|
  {
    if i < 8 {
    } else {
      MessageBitAt(data[1..], i - 8);
      assert data[1..][(i - 8) / 8] == data[i / 8];
    }
  }
}
