/** The bit-level reader and writer of bitbuffer.cc, refined to one flat bit string, and the
    Exp-Golomb codes of ITU-T H.264 section 9.1 on top. */
module BitBuffers {
  import opened Common
  import opened BitStrings
  import opened ExpGolomb

  // ---------------------------------------------------------------- mask helpers

  function LowestBits(byte: Byte, bitCount: nat): (r: Byte)
    requires bitCount <= 8
    ensures r == Zeros(8 - bitCount) + byte[8 - bitCount..]
  {
    And(byte, Zeros(8 - bitCount) + Repeat(true, bitCount))
  }

  function HighestBits(byte: Byte, bitCount: nat): (r: Byte)
    requires bitCount <= 8
    ensures r == Zeros(8 - bitCount) + byte[..bitCount]
  {
    var shift := 8 - bitCount;
    var mask := Shl(Repeat(true, 8), shift);
    Shr(And(byte, mask), shift)
  }

  function HighestByte(val: seq<bool>): Byte
    requires |val| == 64
  {
    Truncate(Shr(val, 56), 8)
  }

  /** The mask covers only the bits to overwrite, but the source is not masked, so it must be zero
      behind its own bits unless those reach the end of the byte. */
  function WritePartialByte(source: Byte, sourceBitCount: nat, target: Byte, targetBitOffset: nat): (r: Byte)
    requires targetBitOffset < 8 && sourceBitCount <= 8 - targetBitOffset
    ensures (sourceBitCount + targetBitOffset == 8 || source[sourceBitCount..] == Zeros(8 - sourceBitCount)) ==>
      r == target[..targetBitOffset] + source[..sourceBitCount] + target[targetBitOffset + sourceBitCount..]
  {
    var mask := Shr(Shl(Repeat(true, 8), 8 - sourceBitCount), targetBitOffset);
    var r := Or(And(target, Not(mask)), Shr(source, targetBitOffset));
    MaskCovers(mask, sourceBitCount, targetBitOffset);
    if sourceBitCount + targetBitOffset == 8 || source[sourceBitCount..] == Zeros(8 - sourceBitCount) then
      MaskedMerge(target, source, mask, sourceBitCount, targetBitOffset);
      r
    else r
  }

  lemma {:induction false} MaskCovers(mask: Byte, n: nat, o: nat)
    requires o < 8 && n <= 8 - o && mask == Shr(Shl(Repeat(true, 8), 8 - n), o)
    ensures forall i :: 0 <= i < 8 ==> mask[i] == (o <= i < o + n)
  {
    var w := Shl(Repeat(true, 8), 8 - n);
    assert forall j :: 0 <= j < 8 ==> w[j] == (j < n);
    assert forall i :: o <= i < 8 ==> mask[i] == w[i - o];
  }

  lemma {:induction false} MaskedMerge(target: Byte, source: Byte, mask: Byte, n: nat, o: nat)
    requires o < 8 && n <= 8 - o && (n + o == 8 || source[n..] == Zeros(8 - n))
    requires forall i :: 0 <= i < 8 ==> mask[i] == (o <= i < o + n)
    ensures Or(And(target, Not(mask)), Shr(source, o)) == target[..o] + source[..n] + target[o + n..]
  {
    var r, s := Or(And(target, Not(mask)), Shr(source, o)), Shr(source, o);
    forall i | 0 <= i < 8 ensures r[i] == if o <= i < o + n then source[i - o] else target[i] {
      if i < o { assert !s[i]; }
      else {
        assert s[i] == source[i - o];
        if o + n <= i { assert !source[i - o] by { assert source[n..][i - o - n] == source[i - o]; } }
      }
    }
    Spliced(r, target, source, n, o);
  }

  lemma {:induction false} Spliced(r: Byte, target: Byte, source: Byte, n: nat, o: nat)
    requires o < 8 && n <= 8 - o
    requires forall i :: 0 <= i < 8 ==> r[i] == if o <= i < o + n then source[i - o] else target[i]
    ensures r == target[..o] + source[..n] + target[o + n..]
  {
  }

  // ---------------------------------------------------------------- writing into a flat string

  /** x written over f at position p. */
  function Put(f: seq<bool>, p: nat, x: seq<bool>): (r: seq<bool>)
    requires p + |x| <= |f|
    ensures |r| == |f|
  {
    f[..p] + x + f[p + |x|..]
  }

  lemma {:induction false} PutTwice(f: seq<bool>, p: nat, x: seq<bool>, y: seq<bool>)
    requires p + |x| + |y| <= |f|
    ensures Put(Put(f, p, x), p + |x|, y) == Put(f, p, x + y)
  {
  }

  lemma {:induction false} FlatSlice(bytes: seq<Byte>, i: nat, a: nat, b: nat, o: nat)
    requires i < |bytes| && a <= b <= 8 && o == 8 * i
    ensures Flat(bytes)[o + a..o + b] == bytes[i][a..b]
  {
    FlatAt(bytes, i);
    SubSlice(Flat(bytes), o, a, b, bytes[i]);
  }

  lemma {:induction false} SubSlice(f: seq<bool>, o: nat, a: nat, b: nat, g: seq<bool>)
    requires a <= b <= 8 && o + 8 <= |f| && g == f[o..o + 8]
    ensures f[o + a..o + b] == g[a..b]
  {
    forall k | 0 <= k < b - a ensures g[a..b][k] == f[o + a..o + b][k] {
      assert g[a + k] == f[o + (a + k)];
    }
  }

  /** A 32-bit register whose low bits are s. */
  ghost predicate Holds(w: seq<bool>, s: seq<bool>) {
    |w| == 32 && |s| <= 32 && w == Zeros(32 - |s|) + s
  }

  lemma {:induction false} OrLow(a: seq<bool>, x: seq<bool>)
    ensures Or(a + Zeros(|x|), Zeros(|a|) + x) == a + x
  {
    OrConcat(a, Zeros(|x|), Zeros(|a|), x);
    OrZeros(a);
    OrZeros(x);
  }

  lemma {:induction false} ShiftedWord(s: seq<bool>, k: nat, z: nat)
    requires z + |s| + k == 32
    ensures Shl(Zeros(z + k) + s, k) == (Zeros(z) + s) + Zeros(k)
  {
  }

  lemma {:induction false} HoldsBoth(w: seq<bool>, z: nat, s: seq<bool>, x: seq<bool>)
    requires z + |s| + |x| == 32 && w == (Zeros(z) + s) + x
    ensures Holds(w, s + x)
  {
    assert (Zeros(z) + s) + x == Zeros(z) + (s + x);
  }

  lemma {:induction false} HeldBits(w: seq<bool>, s: seq<bool>, n: nat)
    requires Holds(w, s) && n + |s| == 32
    ensures w == Zeros(n) + s
  {
  }

  /** Shifting a word left and adding low bits appends the bits to what the word holds. */
  lemma {:induction false} ShiftedIn(bits: seq<bool>, s: seq<bool>, e: seq<bool>, x: seq<bool>, z: nat)
    requires z + |s| + |x| == 32 && bits == Zeros(z + |x|) + s && e == Zeros(z + |s|) + x
    ensures Or(Shl(bits, |x|), e) == (Zeros(z) + s) + x
  {
    ShiftedWord(s, |x|, z);
    OrLow(Zeros(z) + s, x);
  }

  lemma {:induction false} ShiftHeldBits(bits: seq<bool>, s: seq<bool>, e: seq<bool>, x: seq<bool>, z: nat,
                                         w: seq<bool>)
    requires z + |s| + |x| == 32 && bits == Zeros(z + |x|) + s && e == Zeros(z + |s|) + x
    requires w == Or(Shl(bits, |x|), e)
    ensures Holds(w, s + x)
  {
    ShiftedIn(bits, s, e, x, z);
    HoldsBoth(w, z, s, x);
  }

  lemma {:induction false} ShiftHolds(bits: seq<bool>, s: seq<bool>, e: seq<bool>, x: seq<bool>, w: seq<bool>,
                                      t: seq<bool>)
    requires Holds(bits, s) && Holds(e, x) && |s| + |x| <= 32 && w == Or(Shl(bits, |x|), e) && t == s + x
    ensures Holds(w, t)
  {
    HeldBits(bits, s, 32 - |s|);
    HeldBits(e, x, 32 - |x|);
    ShiftHeldBits(bits, s, e, x, 32 - |s| - |x|, w);
  }

  lemma {:induction false} AdjacentSlices(f: seq<bool>, a: nat, b: nat, c: nat)
    requires a <= b <= c <= |f|
    ensures f[a..b] + f[b..c] == f[a..c]
  {
  }

  lemma {:induction false} OrConcat(a: seq<bool>, b: seq<bool>, c: seq<bool>, d: seq<bool>)
    requires |a| == |c| && |b| == |d|
    ensures Or(a + b, c + d) == Or(a, c) + Or(b, d)
  {
  }

  lemma {:induction false} OrZeros(a: seq<bool>)
    ensures Or(a, Zeros(|a|)) == a == Or(Zeros(|a|), a)
  {
  }

  /** Overwriting part of one byte overwrites the same part of the flat string. */
  lemma {:induction false} FlatPartialUpdate(bytes: seq<Byte>, i: nat, b: Byte, a: nat, x: seq<bool>)
    requires i < |bytes| && a + |x| <= 8
    requires b == bytes[i][..a] + x + bytes[i][a + |x|..]
    ensures Flat(bytes[i := b]) == Put(Flat(bytes), 8 * i + a, x)
  {
    var f := Flat(bytes);
    FlatUpdate(bytes, i, b);
    FlatAt(bytes, i);
    assert f == f[..8 * i] + bytes[i] + f[8 * i + 8..];
    PutInside(f[..8 * i], bytes[i], f[8 * i + 8..], a, x);
  }

  lemma {:induction false} PutInside(l: seq<bool>, m: seq<bool>, r: seq<bool>, a: nat, x: seq<bool>)
    requires a + |x| <= |m|
    ensures Put(l + m + r, |l| + a, x) == l + (m[..a] + x + m[a + |x|..]) + r
  {
    var f := l + m + r;
    assert f[..|l| + a] == l + m[..a];
    assert f[|l| + a + |x|..] == m[a + |x|..] + r;
  }

  /** A field is being stored from pos on: k bits are in the buffer, the rest tops the register. */
  ghost predicate Storing(f: seq<bool>, pos: nat, field: seq<bool>, k: nat, reg: seq<bool>, now: seq<bool>) {
    && k <= |field| <= 64 && pos + |field| <= |f|
    && reg == field[k..] + Zeros(64 - (|field| - k)) && now == Put(f, pos, field[..k])
  }

  lemma {:induction false} StoringStarts(f: seq<bool>, pos: nat, val: nat, n: nat)
    requires 1 <= n <= 64 && pos + n <= |f|
    ensures Storing(f, pos, ToBits(val, n), 0, Shl(ToBits(val, 64), 64 - n), f)
    ensures ToBits(val, n)[0..] == ToBits(val, n)
  {
    ToBitsTruncate(val, 64 - n, n);
    assert f == Put(f, pos, ToBits(val, n)[..0]);
  }

  /** Storing n more bits. */
  lemma {:induction false} StoreMore(f: seq<bool>, pos: nat, field: seq<bool>, k: nat, reg: seq<bool>,
                                     now: seq<bool>, n: nat)
    requires Storing(f, pos, field, k, reg, now) && k + n <= |field|
    ensures Storing(f, pos, field, k + n, Shl(reg, n), Put(now, pos + k, field[k..][..n]))
  {
    PutTwice(f, pos, field[..k], field[k..][..n]);
    assert field[..k] + field[k..][..n] == field[..k + n];
    ShiftRegister(reg, field[k..], n);
    assert field[k..][n..] == field[k + n..];
  }

  lemma {:induction false} StoredAll(f: seq<bool>, pos: nat, field: seq<bool>, reg: seq<bool>, now: seq<bool>)
    requires Storing(f, pos, field, |field|, reg, now)
    ensures now == Put(f, pos, field)
  {
    assert field[..|field|] == field;
  }

  lemma {:induction false} ShiftRegister(reg: seq<bool>, rest: seq<bool>, n: nat)
    requires n <= |rest| <= 64 && reg == rest + Zeros(64 - |rest|)
    ensures Shl(reg, n) == rest[n..] + Zeros(64 - (|rest| - n))
  {
  }

  lemma {:induction false} PeekWithinByte(bits: seq<bool>, s: seq<bool>, offset: nat, n: nat, high: Byte)
    requires offset + |s| == 8 && n <= |s| && Holds(bits, s)
    requires high == HighestBits(Truncate(bits, 8), offset + n)
    ensures Val(high) == Val(s[..n])
  {
    assert Truncate(bits, 8) == Zeros(offset) + s;
    assert high == Zeros(8 - n) + s[..n];
    ValExtend(8 - n, s[..n]);
  }

  lemma {:induction false} HeldValue(bits: seq<bool>, f: seq<bool>, pos: nat, n: nat)
    requires pos + n <= |f| && n <= 32 && Holds(bits, f[pos..pos + n])
    ensures Val(bits) == Val(f[pos..pos + n])
  {
    ValExtend(32 - n, f[pos..pos + n]);
  }

  // ---------------------------------------------------------------- the buffer

  class BitBuffer {
    const bytes: array<Byte>
    var byteOffset: nat
    var bitOffset: nat

    ghost predicate Valid()
      reads this
    {
      bitOffset < 8 && byteOffset <= bytes.Length && (byteOffset == bytes.Length ==> bitOffset == 0)
    }

    /** The whole contents as one bit string. */
    ghost function Bits(): (s: seq<bool>)
      reads bytes
      ensures |s| == 8 * bytes.Length
    {
      Flat(bytes[..])
    }

    ghost function Pos(): nat
      reads this
    {
      8 * byteOffset + bitOffset
    }

    constructor (bytes: array<Byte>)
      ensures Valid() && this.bytes == bytes && Pos() == 0
    {
      this.bytes := bytes;
      byteOffset, bitOffset := 0, 0;
    }

    function RemainingBitCount(): (r: nat)
      requires Valid()
      reads this
      ensures Pos() + r == 8 * bytes.Length
    {
      (bytes.Length - byteOffset) * 8 - bitOffset
    }

    /** Peeking no bits at the very end would read past the buffer and is excluded. */
    method PeekBits(bitCount: nat) returns (ok: bool, val: nat)
      requires Valid() && (bitCount > 0 || RemainingBitCount() > 0)
      ensures ok <==> bitCount <= 32 && bitCount <= RemainingBitCount()
      ensures ok ==> val == Val(Bits()[Pos()..Pos() + bitCount])
    {
      if bitCount > RemainingBitCount() || bitCount > 32 {
        return false, 0;
      }
      var bits := FirstBits();
      var remainingBitsInCurrentByte := 8 - bitOffset;
      if bitCount < remainingBitsInCurrentByte {
        val := BitsWithinByte(bits, bitCount);
        return true, val;
      }
      bits := CollectBits(byteOffset + 1, bits, Bits(), Pos(), bitCount - remainingBitsInCurrentByte);
      HeldValue(bits, Bits(), Pos(), bitCount);
      return true, Val(bits);
    }

    /** The rest of the current byte in a register, line 116. */
    method FirstBits() returns (bits: seq<bool>)
      requires Valid() && byteOffset < bytes.Length
      ensures Holds(bits, Bits()[Pos()..8 * (byteOffset + 1)])
    {
      bits := Extend(LowestBits(bytes[byteOffset], 8 - bitOffset), 32);
      FlatSlice(bytes[..], byteOffset, bitOffset, 8, 8 * byteOffset);
    }

    /** All bits wanted are in the current byte, lines 119 to 122. */
    method BitsWithinByte(bits: seq<bool>, bitCount: nat) returns (val: nat)
      requires Valid() && byteOffset < bytes.Length && bitCount < 8 - bitOffset
      requires Holds(bits, Bits()[Pos()..8 * (byteOffset + 1)])
      ensures val == Val(Bits()[Pos()..Pos() + bitCount])
    {
      ghost var s := Bits()[Pos()..8 * (byteOffset + 1)];
      assert s[..bitCount] == Bits()[Pos()..Pos() + bitCount];
      var high := HighestBits(Truncate(bits, 8), bitOffset + bitCount);
      PeekWithinByte(bits, s, bitOffset, bitCount, high);
      val := Val(high);
    }

    /** The byte loop and the final partial byte of PeekBits, lines 125 to 135. */
    method CollectBits(start: nat, first: seq<bool>, ghost f: seq<bool>, ghost pos: nat, count: nat)
      returns (bits: seq<bool>)
      requires f == Bits() && pos <= 8 * start && 8 * start + count <= 8 * bytes.Length
      requires 8 * start - pos + count <= 32 && Holds(first, f[pos..8 * start])
      ensures Holds(bits, f[pos..8 * start + count])
    {
      bits := first;
      var p, n := start, count;
      while n >= 8
        invariant 0 <= n <= count && 8 * p + n == 8 * start + count
        invariant Holds(bits, f[pos..8 * p])
      {
        bits := CollectByte(p, bits, f, pos);
        p := p + 1;
        n := n - 8;
      }
      if n > 0 {
        bits := CollectPart(p, bits, f, pos, n);
      }
    }

    method CollectByte(p: nat, bits: seq<bool>, ghost f: seq<bool>, ghost pos: nat) returns (r: seq<bool>)
      requires f == Bits() && pos <= 8 * p && p < bytes.Length && 8 * p - pos + 8 <= 32
      requires Holds(bits, f[pos..8 * p])
      ensures Holds(r, f[pos..8 * p + 8])
    {
      FlatAt(bytes[..], p);
      r := ShiftIn(bits, Extend(bytes[p], 32), f, pos, 8 * p, 8);
    }

    method CollectPart(p: nat, bits: seq<bool>, ghost f: seq<bool>, ghost pos: nat, n: nat) returns (r: seq<bool>)
      requires f == Bits() && pos <= 8 * p && p < bytes.Length && 8 * p - pos + n <= 32 && n < 8
      requires Holds(bits, f[pos..8 * p])
      ensures Holds(r, f[pos..8 * p + n])
    {
      FlatSlice(bytes[..], p, 0, n, 8 * p);
      r := ShiftIn(bits, Extend(HighestBits(bytes[p], n), 32), f, pos, 8 * p, n);
    }

    /** Shifts k more bits of the buffer into a register. */
    static method ShiftIn(bits: seq<bool>, e: seq<bool>, ghost f: seq<bool>, ghost a: nat, ghost b: nat, k: nat)
      returns (r: seq<bool>)
      requires a <= b && b + k <= |f| && b - a + k <= 32
      requires Holds(bits, f[a..b]) && Holds(e, f[b..b + k])
      ensures Holds(r, f[a..b + k])
    {
      r := Or(Shl(bits, k), e);
      AdjacentSlices(f, a, b, b + k);
      ShiftHolds(bits, f[a..b], e, f[b..b + k], r, f[a..b + k]);
    }

    method ConsumeBits(bitCount: nat) returns (ok: bool)
      requires Valid()
      modifies this
      ensures Valid()
      ensures ok <==> bitCount <= old(RemainingBitCount())
      ensures Pos() == old(Pos()) + if ok then bitCount else 0
    {
      if bitCount > RemainingBitCount() {
        return false;
      }
      byteOffset := byteOffset + (bitOffset + bitCount) / 8;
      bitOffset := (bitOffset + bitCount) % 8;
      return true;
    }

    method ReadBits(bitCount: nat) returns (ok: bool, val: nat)
      requires Valid() && (bitCount > 0 || RemainingBitCount() > 0)
      modifies this
      ensures Valid()
      ensures ok <==> bitCount <= 32 && bitCount <= old(RemainingBitCount())
      ensures ok ==> Pos() == old(Pos()) + bitCount && val == Val(Bits()[old(Pos())..Pos()])
      ensures !ok ==> Pos() == old(Pos())
    {
      ok, val := PeekBits(bitCount);
      if ok {
        ok := ConsumeBits(bitCount);
      }
    }

    method Seek(byteOffset: nat, bitOffset: nat) returns (ok: bool)
      requires Valid()
      modifies this
      ensures Valid()
      ensures ok <==> bitOffset <= 7 && 8 * byteOffset + bitOffset <= 8 * bytes.Length
      ensures Pos() == if ok then 8 * byteOffset + bitOffset else old(Pos())
    {
      if byteOffset > bytes.Length || bitOffset > 7 || (byteOffset == bytes.Length && bitOffset > 0) {
        return false;
      }
      this.byteOffset := byteOffset;
      this.bitOffset := bitOffset;
      return true;
    }

    /** Counts of zero or above 64 bits would shift by the full register width and are excluded. */
    method WriteBits(val: nat, bitCount: nat) returns (ok: bool)
      requires Valid() && 1 <= bitCount <= 64
      modifies this, bytes
      ensures Valid()
      ensures ok <==> bitCount <= old(RemainingBitCount())
      ensures ok ==> Pos() == old(Pos()) + bitCount
      ensures ok ==> Bits() == Put(old(Bits()), old(Pos()), ToBits(val, bitCount))
      ensures !ok ==> Pos() == old(Pos()) && Bits() == old(Bits())
    {
      if bitCount > RemainingBitCount() {
        return false;
      }
      ghost var f, pos, field := Bits(), Pos(), ToBits(val, bitCount);
      var reg := Shl(ToBits(val, 64), 64 - bitCount);
      StoringStarts(f, pos, val, bitCount);
      var remainingBitsInCurrentByte := 8 - bitOffset;
      var bitsInFirstByte := if bitCount < remainingBitsInCurrentByte then bitCount else remainingBitsInCurrentByte;
      StoreMore(f, pos, field, 0, reg, f, bitsInFirstByte);
      StorePartial(byteOffset, reg, bitsInFirstByte, bitOffset, field);
      if bitCount > remainingBitsInCurrentByte {
        reg := Shl(reg, bitsInFirstByte);
        StoreRest(byteOffset + 1, reg, bitCount - bitsInFirstByte, f, pos, field);
      } else {
        StoredAll(f, pos, field, Shl(reg, bitsInFirstByte), Bits());
      }
      ok := ConsumeBits(bitCount);
    }

    /** The byte loop and the final partial byte of WriteBits, lines 266 to 276. */
    method StoreRest(start: nat, reg0: seq<bool>, bitCount: nat, ghost f: seq<bool>, ghost pos: nat,
                     ghost field: seq<bool>)
      requires bitCount <= |field| && 8 * start == pos + |field| - bitCount && 8 * start + bitCount <= 8 * bytes.Length
      requires Storing(f, pos, field, |field| - bitCount, reg0, Bits())
      modifies bytes
      ensures Bits() == Put(f, pos, field)
    {
      var p, reg, n := start, reg0, bitCount;
      ghost var k := |field| - bitCount;
      while n >= 8
        invariant 0 <= n <= bitCount && k + n == |field| && 8 * p == pos + k
        invariant Storing(f, pos, field, k, reg, Bits())
      {
        reg := StoreTop(p, reg, 8, f, pos, field, k);
        p, n, k := p + 1, n - 8, k + 8;
      }
      if n > 0 {
        reg := StoreTop(p, reg, n, f, pos, field, k);
      }
      StoredAll(f, pos, field, reg, Bits());
    }

    /** Stores up to eight bits from the top of the register at the start of a byte. */
    method StoreTop(p: nat, reg: seq<bool>, n: nat, ghost f: seq<bool>, ghost pos: nat, ghost field: seq<bool>,
                    ghost k: nat)
      returns (next: seq<bool>)
      requires p < bytes.Length && 1 <= n <= 8 && k + n <= |field| && (n == 8 || k + n == |field|)
      requires 8 * p == pos + k && Storing(f, pos, field, k, reg, Bits())
      modifies bytes
      ensures Storing(f, pos, field, k + n, next, Bits())
    {
      StoreMore(f, pos, field, k, reg, Bits(), n);
      StorePartial(p, reg, n, 0, field[k..]);
      next := Shl(reg, n);
    }

    /** One store of the top bits of the register: lines 254, 267 and 275. */
    method StorePartial(p: nat, reg: seq<bool>, count: nat, offset: nat, ghost rest: seq<bool>)
      requires p < bytes.Length && offset < 8 && 1 <= count <= 8 - offset && count <= |rest| <= 64
      requires |reg| == 64 && reg == rest + Zeros(64 - |rest|)
      requires count == |rest| || count + offset == 8
      modifies bytes
      ensures Bits() == Put(old(Bits()), 8 * p + offset, rest[..count])
    {
      var high := HighestByte(reg);
      assert high == reg[..8];
      var b := WritePartialByte(high, count, bytes[p], offset);
      assert high[..count] == rest[..count];
      assert count == |rest| ==> high[count..] == Zeros(8 - count);
      FlatPartialUpdate(bytes[..], p, b, offset, rest[..count]);
      bytes[p] := b;
      assert bytes[..] == old(bytes[..])[p := b];
    }

    // -------------------------------------------------------------- Exp-Golomb

    method WriteExponentialGolomb(val: nat) returns (ok: bool)
      requires Valid() && val <= 0xFFFF_FFFF
      modifies this, bytes
      ensures Valid()
      ensures ok <==> val != 0xFFFF_FFFF && |Code(val)| <= old(RemainingBitCount())
      ensures ok ==> Pos() == old(Pos()) + |Code(val)|
      ensures ok ==> Bits() == Put(old(Bits()), old(Pos()), Code(val))
      ensures !ok ==> Pos() == old(Pos()) && Bits() == old(Bits())
    {
      if val == 0xFFFF_FFFF {
        return false;
      }
      CodeIsOneField(val);
      var valToEncode := val + 1;
      var n := CountValueBits(valToEncode);
      ok := WriteBits(valToEncode, n * 2 - 1);
    }

    /** The helper CountBits, lines 63 to 70. */
    static method CountValueBits(val: nat) returns (bitCount: nat)
      ensures bitCount == CountBits(val)
    {
      bitCount := 0;
      var v := val;
      while v != 0
        invariant bitCount + CountBits(v) == CountBits(val)
      {
        bitCount := bitCount + 1;
        v := v / 2;
      }
    }

    /** A failed read restores the offset; the check on Seek never fires. */
    method ReadExponentialGolomb() returns (ok: bool, val: nat)
      requires Valid()
      modifies this
      ensures Valid()
      ensures ok <==> Decode(Bits(), old(Pos())).Some?
      ensures ok ==> Decode(Bits(), old(Pos())) == Some((val, Pos()))
      ensures !ok ==> Pos() == old(Pos())
    {
      var originalByteOffset, originalBitOffset := byteOffset, bitOffset;
      ghost var f, pos := Bits(), Pos();
      var zeroBitCount := ConsumeZeroRun();
      DecodeByRun(f, pos, zeroBitCount);
      var valueBitCount := zeroBitCount + 1;
      ok, val := false, 0;
      if valueBitCount <= 32 {
        ok, val := ReadBits(valueBitCount);
      }
      if !ok {
        var restored := Seek(originalByteOffset, originalBitOffset);
        assert restored;
        return;
      }
      val := val - 1;
    }

    /** Peeks and consumes zero bits one at a time, lines 168 to 173. */
    method ConsumeZeroRun() returns (zeroBitCount: nat)
      requires Valid()
      modifies this
      ensures Valid()
      ensures zeroBitCount == ZeroRun(Bits(), old(Pos())) && Pos() == old(Pos()) + zeroBitCount
    {
      ghost var f, pos := Bits(), Pos();
      zeroBitCount := 0;
      while true
        invariant Valid() && Pos() == pos + zeroBitCount <= |f|
        invariant zeroBitCount + ZeroRun(f, Pos()) == ZeroRun(f, pos)
        decreases |f| - Pos()
      {
        var zero := ZeroBitIsNext();
        if !zero {
          break;
        }
        zeroBitCount := zeroBitCount + 1;
        var consumed := ConsumeBits(1);
      }
    }

    /** The condition of the loop, line 170. */
    method ZeroBitIsNext() returns (zero: bool)
      requires Valid()
      ensures zero <==> Pos() < |Bits()| && !Bits()[Pos()]
      ensures zero ==> RemainingBitCount() > 0
    {
      var peeked, peekedBit := PeekBits(1);
      if peeked { OneBit(Bits(), Pos()); }
      return peeked && peekedBit == 0;
    }

    method ReadSignedExponentialGolomb() returns (ok: bool, val: int)
      requires Valid()
      modifies this
      ensures Valid()
      ensures ok <==> Decode(Bits(), old(Pos())).Some?
      ensures ok ==> UnsignedOf(val) >= 0 && Decode(Bits(), old(Pos())) == Some((UnsignedOf(val), Pos()))
      ensures ok ==>
        var code := Decode(Bits(), old(Pos())).value.0;
        if code % 2 == 1 then 2 * val == code + 1 else 2 * val + code == 0
      ensures ok ==> -0x7FFF_FFFF <= val <= 0x7FFF_FFFF
      ensures !ok ==> Pos() == old(Pos())
    {
      var unsignedVal: int;
      ok, unsignedVal := ReadExponentialGolomb();
      if !ok {
        return false, 0;
      }
      ReadConsumedACode(Bits(), old(Pos()));
      SignedIsABijection(unsignedVal, SignedOf(unsignedVal));
      if unsignedVal % 2 == 0 {
        val := -(unsignedVal / 2);
      } else {
        val := (unsignedVal + 1) / 2;
      }
    }

    // -------------------------------------------------------------- rows of fields

    method WriteFields(fields: seq<Field>)
      requires Valid() && TotalWidth(fields) <= RemainingBitCount() && forall g :: g in fields ==> 1 <= g.width <= 64
      modifies this, bytes
      ensures Valid() && Pos() == old(Pos()) + TotalWidth(fields)
      ensures Bits() == PutFields(old(Bits()), old(Pos()), fields)
    {
      ghost var goal := PutFields(Bits(), Pos(), fields);
      var i := 0;
      assert fields[0..] == fields;
      while i < |fields|
        invariant 0 <= i <= |fields| && Valid() && Pos() + TotalWidth(fields[i..]) == old(Pos()) + TotalWidth(fields)
        invariant Pos() + TotalWidth(fields[i..]) <= |Bits()| && PutFields(Bits(), Pos(), fields[i..]) == goal
      {
        RestOfFields(fields, i);
        var ok := WriteBits(fields[i].val, fields[i].width);
        i := i + 1;
      }
    }

    method ReadFields(fields: seq<Field>) returns (vals: seq<nat>)
      requires Valid() && TotalWidth(fields) <= RemainingBitCount() && forall g :: g in fields ==> 1 <= g.width <= 32
      modifies this
      ensures Valid() && Pos() == old(Pos()) + TotalWidth(fields)
      ensures vals == GetFields(Bits(), old(Pos()), fields)
    {
      vals := [];
      ghost var f, end := Bits(), Pos() + TotalWidth(fields);
      ghost var goal := GetFields(f, Pos(), fields);
      var i := 0;
      assert fields[0..] == fields;
      while i < |fields|
        invariant 0 <= i <= |fields| && Valid() && Bits() == f
        invariant Getting(f, Pos(), fields, i, vals, end, goal)
      {
        ghost var pos := Pos();
        GetNextField(f, pos, fields, i, vals, end, goal);
        var ok, val := ReadBits(fields[i].width);
        assert val == Val(f[pos..pos + fields[i].width]);
        vals := vals + [val];
        i := i + 1;
      }
    }

    /** Any row of fields that fits, of 1 to 32 bits each, reads back after being written. */
    method WriteAndReadBack(fields: seq<Field>) returns (vals: seq<nat>)
      requires Valid() && TotalWidth(fields) <= RemainingBitCount() && Fits(fields)
      requires forall g :: g in fields ==> 1 <= g.width <= 32
      modifies this, bytes
      ensures Valid() && Pos() == old(Pos()) + TotalWidth(fields)
      ensures |vals| == |fields| && forall i :: 0 <= i < |fields| ==> vals[i] == fields[i].val
    {
      ghost var f, pos := Bits(), Pos();
      var byte, bit := byteOffset, bitOffset;
      WriteFields(fields);
      var ok := Seek(byte, bit);
      vals := ReadFields(fields);
      FieldsReadBack(f, pos, fields);
    }
  }

  lemma {:induction false} DecodeByRun(f: seq<bool>, pos: nat, z: nat)
    requires pos <= |f| && z == ZeroRun(f, pos)
    ensures Decode(f, pos).Some? <==> z + 1 <= 32 && pos + z + (z + 1) <= |f|
    ensures Decode(f, pos).Some? ==> Val(f[pos + z..pos + z + (z + 1)]) >= 1
    ensures Decode(f, pos).Some? ==>
        Decode(f, pos) == Some((Val(f[pos + z..pos + z + (z + 1)]) - 1, pos + z + (z + 1)))
  {
    if Decode(f, pos).Some? {
      LeadingOneBound(f[pos + z..pos + z + (z + 1)]);
      Pow2Monotone(0, z);
    }
  }

  lemma {:induction false} OneBit(f: seq<bool>, p: nat)
    requires p < |f|
    ensures Val(f[p..p + 1]) == 0 <==> !f[p]
  {
    assert f[p..p + 1] == [f[p]];
    assert [f[p]][..0] == [];
  }

  // ---------------------------------------------------------------- lists of fields

  datatype Field = Field(val: nat, width: nat)

  ghost predicate Fits(fields: seq<Field>) {
    forall i :: 0 <= i < |fields| ==> fields[i].val < Pow2(fields[i].width)
  }

  function TotalWidth(fields: seq<Field>): nat {
    if fields == [] then 0 else fields[0].width + TotalWidth(fields[1..])
  }

  /** The effect of a row of WriteBits calls on the flat string. */
  function PutFields(f: seq<bool>, p: nat, fields: seq<Field>): (r: seq<bool>)
    requires p + TotalWidth(fields) <= |f|
    ensures |r| == |f|
    decreases |fields|
  {
    if fields == [] then f
    else PutFields(Put(f, p, ToBits(fields[0].val, fields[0].width)), p + fields[0].width, fields[1..])
  }

  /** The values a row of ReadBits calls of the same widths returns. */
  function GetFields(f: seq<bool>, p: nat, fields: seq<Field>): seq<nat>
    requires p + TotalWidth(fields) <= |f|
    decreases |fields|
  {
    if fields == [] then []
    else [Val(f[p..p + fields[0].width])] + GetFields(f, p + fields[0].width, fields[1..])
  }

  lemma {:induction false} RestOfFields(fields: seq<Field>, i: nat)
    requires i < |fields|
    ensures fields[i..][0] == fields[i] && fields[i..][1..] == fields[i + 1..]
    ensures TotalWidth(fields[i..]) == fields[i].width + TotalWidth(fields[i + 1..])
  {
  }

  /** The first i fields have been read; the others stand at p and end at the given position. */
  ghost predicate Getting(f: seq<bool>, p: nat, fields: seq<Field>, i: nat, vals: seq<nat>, end: nat, goal: seq<nat>) {
    && i <= |fields| && p + TotalWidth(fields[i..]) == end <= |f|
    && vals + GetFields(f, p, fields[i..]) == goal
  }

  lemma {:induction false} GetNextField(f: seq<bool>, p: nat, fields: seq<Field>, i: nat, vals: seq<nat>,
                                        end: nat, goal: seq<nat>)
    requires i < |fields| && Getting(f, p, fields, i, vals, end, goal)
    ensures p + fields[i].width <= end
    ensures Getting(f, p + fields[i].width, fields, i + 1, vals + [Val(f[p..p + fields[i].width])], end, goal)
  {
    RestOfFields(fields, i);
  }

  lemma {:induction false} PutFieldsKeepsPrefix(f: seq<bool>, p: nat, fields: seq<Field>, q: nat)
    requires q <= p && p + TotalWidth(fields) <= |f|
    ensures PutFields(f, p, fields)[..q] == f[..q]
    ensures PutFields(f, p, fields)[p + TotalWidth(fields)..] == f[p + TotalWidth(fields)..]
    decreases |fields|
  {
    if fields == [] {
    } else {
      var x := ToBits(fields[0].val, fields[0].width);
      var g := Put(f, p, x);
      PutFieldsKeepsPrefix(g, p + |x|, fields[1..], q);
      assert g[..q] == f[..q];
      assert g[p + TotalWidth(fields)..] == f[p + TotalWidth(fields)..];
    }
  }

  /** Any row of fields reads back what was written, at any offset and across byte boundaries. */
  lemma {:induction false} FieldsReadBack(f: seq<bool>, p: nat, fields: seq<Field>)
    requires p + TotalWidth(fields) <= |f| && Fits(fields)
    ensures |GetFields(PutFields(f, p, fields), p, fields)| == |fields|
    ensures forall i :: 0 <= i < |fields| ==> GetFields(PutFields(f, p, fields), p, fields)[i] == fields[i].val
    decreases |fields|
  {
    if fields == [] {
    } else {
      var v, w := fields[0].val, fields[0].width;
      var g := Put(f, p, ToBits(v, w));
      FieldsReadBack(g, p + w, fields[1..]);
      PutFieldsKeepsPrefix(g, p + w, fields[1..], p + w);
      var r := PutFields(f, p, fields);
      assert r[p..p + w] == g[p..p + w] == ToBits(v, w) by {
        assert r[p..p + w] == r[..p + w][p..];
      }
      ValOfToBits(v, w);
    }
  }
}
