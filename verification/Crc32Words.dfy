/** The checksum on 32-bit machine words, as the source computes it: the polynomial as the constant of
    line 21, and the check value of CRC-32. */
module Crc32Words {
  import opened Common
  import opened Crc32

  function BitAt(c: bv32, k: nat): bool
    decreases k
  {
    if k == 0 then c & 1 == 1 else BitAt(c >> 1, k - 1)
  }

  /** The bits of a machine word, least significant first. */
  function WordOf(c: bv32): Word {
    seq(32, k requires 0 <= k < 32 => BitAt(c, k))
  }

  /** Lines 30 to 34. */
  function Step32(c: bv32): bv32 { if c & 1 == 1 then 0xEDB88320 ^ (c >> 1) else c >> 1 }

  function Steps32(c: bv32, n: nat): bv32
    decreases n
  {
    if n == 0 then c else Steps32(Step32(c), n - 1)
  }

  function EightSteps(c: bv32): bv32 { Steps32(c, 8) }

  /** Adds each byte and makes the steps f. */
  function Absorb32(f: bv32 -> bv32, c: bv32, bytes: seq<bv32>): bv32
    decreases |bytes|
  {
    if bytes == [] then c else Absorb32(f, f(c ^ bytes[0]), bytes[1..])
  }

  // ---------------------------------------------------------------- words and machine words

  lemma {:induction false} XorAt(a: bv32, b: bv32, c: bv32, k: nat)
    requires c == a ^ b
    ensures BitAt(c, k) == (BitAt(a, k) != BitAt(b, k))
    decreases k, 1
  {
    if k == 0 {
      XorAtStart(a, b, c);
    } else {
      XorAtNext(a, b, c, k - 1);
    }
  }

  lemma {:induction false} XorAtStart(a: bv32, b: bv32, c: bv32)
    requires c == a ^ b
    ensures BitAt(c, 0) == (BitAt(a, 0) != BitAt(b, 0))
  {
    LowBitOfXor(a, b, c);
    XorAtZero(a, b, c);
  }

  lemma {:induction false} XorAtNext(a: bv32, b: bv32, c: bv32, k: nat)
    requires c == a ^ b
    ensures BitAt(c, k + 1) == (BitAt(a, k + 1) != BitAt(b, k + 1))
    decreases k + 1, 0
  {
    ShiftOfXor(a, b, c);
    XorAt(a >> 1, b >> 1, c >> 1, k);
    XorBehindOne(a, b, c, k);
  }

  lemma {:induction false} XorAtZero(a: bv32, b: bv32, c: bv32)
    requires (c & 1 == 1) == ((a & 1 == 1) != (b & 1 == 1))
    ensures BitAt(c, 0) == (BitAt(a, 0) != BitAt(b, 0))
  {
  }

  lemma {:induction false} XorBehindOne(a: bv32, b: bv32, c: bv32, k: nat)
    requires BitAt(c >> 1, k) == (BitAt(a >> 1, k) != BitAt(b >> 1, k))
    ensures BitAt(c, k + 1) == (BitAt(a, k + 1) != BitAt(b, k + 1))
  {
  }

  lemma {:induction false} LowBitOfXor(a: bv32, b: bv32, c: bv32)
    requires c == a ^ b
    ensures (c & 1 == 1) == ((a & 1 == 1) != (b & 1 == 1))
  {
  }

  lemma {:induction false} ShiftOfXor(a: bv32, b: bv32, c: bv32)
    requires c == a ^ b
    ensures c >> 1 == (a >> 1) ^ (b >> 1)
  {
  }

  lemma {:induction false} XorOfWords(a: bv32, b: bv32)
    ensures Xor(WordOf(a), WordOf(b)) == WordOf(a ^ b)
  {
    forall k: nat | k < 32 ensures WordOf(a ^ b)[k] == (WordOf(a)[k] != WordOf(b)[k]) { XorAt(a, b, a ^ b, k); }
  }

  lemma {:induction false} BitBehindFour(c: bv32, k: nat)
    ensures BitAt(c, k + 4) == BitAt(c >> 4, k)
  {
    assert BitAt(c, k + 4) == BitAt(c >> 1, k + 3);
    assert BitAt(c >> 1, k + 3) == BitAt((c >> 1) >> 1, k + 2);
    assert BitAt((c >> 1) >> 1, k + 2) == BitAt(((c >> 1) >> 1) >> 1, k + 1);
    assert BitAt(((c >> 1) >> 1) >> 1, k + 1) == BitAt((((c >> 1) >> 1) >> 1) >> 1, k);
    FourShifts(c);
  }

  lemma {:induction false} FourShifts(c: bv32)
    ensures (((c >> 1) >> 1) >> 1) >> 1 == c >> 4
  {
  }

  lemma {:induction false} NoBitAt32(c: bv32)
    ensures !BitAt(c, 32)
  {
    BitBehindFour(c, 28);
    BitBehindFour(c >> 4, 24);
    BitBehindFour((c >> 4) >> 4, 20);
    BitBehindFour(((c >> 4) >> 4) >> 4, 16);
    var d := (((c >> 4) >> 4) >> 4) >> 4;
    BitBehindFour(d, 12);
    BitBehindFour(d >> 4, 8);
    BitBehindFour((d >> 4) >> 4, 4);
    BitBehindFour(((d >> 4) >> 4) >> 4, 0);
    EightShifts(c);
  }

  lemma {:induction false} EightShifts(c: bv32)
    ensures (((((((c >> 4) >> 4) >> 4) >> 4) >> 4) >> 4) >> 4) >> 4 == 0
  {
  }

  lemma {:induction false} ShiftOfWord(c: bv32)
    ensures ShiftRight(WordOf(c), 1) == WordOf(c >> 1)
  {
    var w := ShiftRight(WordOf(c), 1);
    forall k: nat | k < 32 ensures w[k] == BitAt(c >> 1, k) {
      assert BitAt(c >> 1, k) == BitAt(c, k + 1);
      NoBitAt32(c);
    }
  }

  // ---------------------------------------------------------------- constants

  /** From place i on the word is this number. */
  ghost predicate IsFrom(w: Word, i: nat, c: bv32) {
    forall k: nat :: i <= k < 32 ==> w[k] == BitAt(c, k - i)
  }

  lemma {:induction false} FourMoreBits(w: Word, i: nat, c: bv32)
    requires i + 4 <= 32 && IsFrom(w, i + 4, c >> 4)
    requires w[i] == (c & 1 == 1) && w[i + 1] == (c & 2 == 2) && w[i + 2] == (c & 4 == 4) && w[i + 3] == (c & 8 == 8)
    ensures IsFrom(w, i, c)
  {
    LowBits(c);
    forall k: nat | i <= k < 32 ensures w[k] == BitAt(c, k - i) {
      if k < i + 4 {
        assert k == i || k == i + 1 || k == i + 2 || k == i + 3;
      } else {
        BitBehindFour(c, k - i - 4);
      }
    }
  }

  lemma {:induction false} LowBits(c: bv32)
    ensures BitAt(c, 0) == (c & 1 == 1) && BitAt(c, 1) == (c & 2 == 2)
    ensures BitAt(c, 2) == (c & 4 == 4) && BitAt(c, 3) == (c & 8 == 8)
  {
    assert BitAt(c, 1) == BitAt(c >> 1, 0);
    assert BitAt(c, 2) == BitAt((c >> 1) >> 1, 0);
    assert BitAt(c, 3) == BitAt((c >> 1) >> 1, 1) == BitAt(((c >> 1) >> 1) >> 1, 0);
    ShiftedBits(c);
  }

  lemma {:induction false} ShiftedBits(c: bv32)
    ensures (c >> 1) & 1 == 1 <==> c & 2 == 2
    ensures ((c >> 1) >> 1) & 1 == 1 <==> c & 4 == 4
    ensures (((c >> 1) >> 1) >> 1) & 1 == 1 <==> c & 8 == 8
  {
  }

  lemma {:induction false} IsFromStart(w: Word, c: bv32)
    requires IsFrom(w, 0, c)
    ensures w == WordOf(c)
  {
    forall k: nat | k < 32 ensures w[k] == WordOf(c)[k] { assert w[k] == BitAt(c, k - 0); }
  }

  lemma {:induction false} PolynomialByte0(p: Word)
    requires p == POLYNOMIAL
    ensures !p[0] && !p[1] && !p[2] && !p[3] && !p[4] && p[5] && !p[6] && !p[7]
  {
  }

  lemma {:induction false} PolynomialByte1(p: Word)
    requires p == POLYNOMIAL
    ensures p[8] && p[9] && !p[10] && !p[11] && !p[12] && !p[13] && !p[14] && p[15]
  {
  }

  lemma {:induction false} PolynomialByte2(p: Word)
    requires p == POLYNOMIAL
    ensures !p[16] && !p[17] && !p[18] && p[19] && p[20] && p[21] && !p[22] && p[23]
  {
  }

  lemma {:induction false} PolynomialByte3(p: Word)
    requires p == POLYNOMIAL
    ensures p[24] && !p[25] && p[26] && p[27] && !p[28] && p[29] && p[30] && p[31]
  {
  }

  lemma {:induction false} PolynomialNumber(p: Word)
    requires !p[0] && !p[1] && !p[2] && !p[3] && !p[4] && p[5] && !p[6] && !p[7]
    requires p[8] && p[9] && !p[10] && !p[11] && !p[12] && !p[13] && !p[14] && p[15]
    requires !p[16] && !p[17] && !p[18] && p[19] && p[20] && p[21] && !p[22] && p[23]
    requires p[24] && !p[25] && p[26] && p[27] && !p[28] && p[29] && p[30] && p[31]
    ensures p == WordOf(0xEDB8_8320)
  {
    ZeroFrom(p, 32);
    FourMoreBits(p, 28, 0xE);
    FourMoreBits(p, 24, 0xED);
    FourMoreBits(p, 20, 0xEDB);
    FourMoreBits(p, 16, 0xEDB8);
    FourMoreBits(p, 12, 0xE_DB88);
    FourMoreBits(p, 8, 0xED_B883);
    FourMoreBits(p, 4, 0xEDB_8832);
    FourMoreBits(p, 0, 0xEDB8_8320);
    IsFromStart(p, 0xEDB8_8320);
  }

  /** The constant of line 21. */
  lemma {:induction false} PolynomialIsTheConstant(p: Word)
    requires p == POLYNOMIAL
    ensures p == WordOf(0xEDB8_8320)
  {
    PolynomialByte0(p);
    PolynomialByte1(p);
    PolynomialByte2(p);
    PolynomialByte3(p);
    PolynomialNumber(p);
  }

  lemma {:induction false} AllOnesIsTheConstant(p: Word)
    requires p == ALL_ONES
    ensures p == WordOf(0xFFFF_FFFF)
  {
    FourMoreBits(p, 28, 0xF);
    FourMoreBits(p, 24, 0xFF);
    FourMoreBits(p, 20, 0xFFF);
    FourMoreBits(p, 16, 0xFFFF);
    FourMoreBits(p, 12, 0xF_FFFF);
    FourMoreBits(p, 8, 0xFF_FFFF);
    FourMoreBits(p, 4, 0xFFF_FFFF);
    FourMoreBits(p, 0, 0xFFFF_FFFF);
    IsFromStart(p, 0xFFFF_FFFF);
  }

  lemma {:induction false} ZeroFrom(w: Word, i: nat)
    requires i <= 32 && forall k :: i <= k < 32 ==> !w[k]
    ensures IsFrom(w, i, 0)
  {
    forall k: nat | i <= k < 32 ensures w[k] == BitAt(0, k - i) { NoBitOfZero(k - i); }
  }

  lemma {:induction false} NoBitOfZero(k: nat)
    ensures !BitAt(0, k)
    decreases k
  {
    if k == 0 {
    } else {
      NoBitOfZero(k - 1);
    }
  }

  // ---------------------------------------------------------------- the checksum

  lemma {:induction false} StepOfWord(c: bv32)
    ensures Step(WordOf(c)) == WordOf(Step32(c))
  {
    var p := POLYNOMIAL;
    ShiftOfWord(c);
    PolynomialIsTheConstant(p);
    XorOfWords(0xEDB8_8320, c >> 1);
    assert WordOf(c)[0] == BitAt(c, 0);
  }

  lemma {:induction false} StepsOfWord(c: bv32, n: nat)
    ensures Steps(WordOf(c), n) == WordOf(Steps32(c, n))
    decreases n
  {
    if n == 0 {
    } else {
      StepOfWord(c);
      StepsOfWord(Step32(c), n - 1);
    }
  }

  /** The octets as machine words. */
  ghost predicate AreBytes(data: seq<Octet>, bytes: seq<bv32>) {
    |data| == |bytes| && forall i :: 0 <= i < |data| ==> Widen(BitsOf(data[i], 8)) == WordOf(bytes[i])
  }

  lemma {:induction false} AbsorbOfWord(c: bv32, data: seq<Octet>, bytes: seq<bv32>)
    requires AreBytes(data, bytes)
    ensures AbsorbBits(WordOf(c), MessageBits(data)) == WordOf(Absorb32(EightSteps, c, bytes))
    decreases |data|
  {
    if data == [] {
    } else {
      var bits := BitsOf(data[0], 8);
      AbsorbAppend(WordOf(c), bits, MessageBits(data[1..]));
      AbsorbWindow(WordOf(c), bits);
      XorOfWords(c, bytes[0]);
      StepsOfWord(c ^ bytes[0], 8);
      AbsorbOfWord(EightSteps(c ^ bytes[0]), data[1..], bytes[1..]);
    }
  }

  /** The checksum of the source, lines 40 to 49, without its table: complement, absorb byte by byte,
      complement. */
  lemma {:induction false} ChecksumOfWord(start: bv32, first: bv32, data: seq<Octet>, bytes: seq<bv32>,
                                          last: bv32, sum: bv32)
    requires AreBytes(data, bytes) && first == start ^ 0xFFFF_FFFF
    requires Absorb32(EightSteps, first, bytes) == last && sum == last ^ 0xFFFF_FFFF
    ensures Checksum(WordOf(start), data) == WordOf(sum)
  {
    var ones := ALL_ONES;
    AllOnesIsTheConstant(ones);
    XorOfWords(start, 0xFFFF_FFFF);
    AbsorbOfWord(first, data, bytes);
    XorOfWords(last, 0xFFFF_FFFF);
  }

  // ---------------------------------------------------------------- the check value

  /** The digits 1 to 9 in ASCII. */
  const CHECK_INPUT: seq<Octet> := [0x31, 0x32, 0x33, 0x34, 0x35, 0x36, 0x37, 0x38, 0x39]

  lemma {:induction false} ByteIs(b: Octet, c: bv32, high: bv32, bits: seq<nat>)
    requires |bits| == 8 && c >> 4 == high && high >> 4 == 0 && forall i :: 0 <= i < 8 ==> bits[i] < 2
    requires b == bits[0] + 2 * bits[1] + 4 * bits[2] + 8 * bits[3]
      + 16 * bits[4] + 32 * bits[5] + 64 * bits[6] + 128 * bits[7]
    requires (bits[0] == 1) == (c & 1 == 1) && (bits[1] == 1) == (c & 2 == 2)
    requires (bits[2] == 1) == (c & 4 == 4) && (bits[3] == 1) == (c & 8 == 8)
    requires (bits[4] == 1) == (high & 1 == 1) && (bits[5] == 1) == (high & 2 == 2)
    requires (bits[6] == 1) == (high & 4 == 4) && (bits[7] == 1) == (high & 8 == 8)
    ensures Widen(BitsOf(b, 8)) == WordOf(c)
  {
    var w := Widen(BitsOf(b, 8));
    EightBits(b, bits);
    ZeroFrom(w, 8);
    FourMoreBits(w, 4, high);
    FourMoreBits(w, 0, c);
    IsFromStart(w, c);
  }

  lemma {:induction false} EightBits(n: nat, bits: seq<nat>)
    requires |bits| == 8 && forall i :: 0 <= i < 8 ==> bits[i] < 2
    requires n == bits[0] + 2 * bits[1] + 4 * bits[2] + 8 * bits[3]
      + 16 * bits[4] + 32 * bits[5] + 64 * bits[6] + 128 * bits[7]
    ensures forall i :: 0 <= i < 8 ==> BitsOf(n, 8)[i] == (bits[i] == 1)
  {
    var n7 := bits[7];
    var n6 := bits[6] + 2 * n7;
    var n5 := bits[5] + 2 * n6;
    var n4 := bits[4] + 2 * n5;
    var n3 := bits[3] + 2 * n4;
    var n2 := bits[2] + 2 * n3;
    var n1 := bits[1] + 2 * n2;
    OneMoreBit(n7, bits, 7, 0);
    OneMoreBit(n6, bits, 6, n7);
    OneMoreBit(n5, bits, 5, n6);
    OneMoreBit(n4, bits, 4, n5);
    OneMoreBit(n3, bits, 3, n4);
    OneMoreBit(n2, bits, 2, n3);
    OneMoreBit(n1, bits, 1, n2);
    OneMoreBit(n, bits, 0, n1);
  }

  ghost predicate AreBitsOf(n: nat, bits: seq<nat>, i: nat)
    requires i <= |bits|
  {
    forall j :: i <= j < |bits| ==> BitsOf(n, |bits| - i)[j - i] == (bits[j] == 1)
  }

  lemma {:induction false} OneMoreBit(n: nat, bits: seq<nat>, i: nat, rest: nat)
    requires i < |bits| && bits[i] < 2 && n == bits[i] + 2 * rest && AreBitsOf(rest, bits, i + 1)
    ensures AreBitsOf(n, bits, i)
  {
    var k := |bits| - i - 1;
    assert BitsOf(n, k + 1) == [n % 2 == 1] + BitsOf(n / 2, k) && n / 2 == rest && n % 2 == bits[i];
    forall j | i <= j < |bits| ensures BitsOf(n, k + 1)[j - i] == (bits[j] == 1) {
      if j > i { assert BitsOf(n, k + 1)[j - i] == BitsOf(rest, k)[j - (i + 1)]; }
    }
  }

  lemma {:induction false} CheckBytes(bytes: seq<bv32>)
    requires bytes == [0x31, 0x32, 0x33, 0x34, 0x35, 0x36, 0x37, 0x38, 0x39]
    ensures AreBytes(CHECK_INPUT, bytes)
  {
    FirstDigits();
    LastDigits();
  }

  lemma {:induction false} FirstDigits()
    ensures Widen(BitsOf(0x31, 8)) == WordOf(0x31) && Widen(BitsOf(0x32, 8)) == WordOf(0x32)
    ensures Widen(BitsOf(0x33, 8)) == WordOf(0x33) && Widen(BitsOf(0x34, 8)) == WordOf(0x34)
  {
    ByteIs(0x31, 0x31, 3, [1, 0, 0, 0, 1, 1, 0, 0]);
    ByteIs(0x32, 0x32, 3, [0, 1, 0, 0, 1, 1, 0, 0]);
    ByteIs(0x33, 0x33, 3, [1, 1, 0, 0, 1, 1, 0, 0]);
    ByteIs(0x34, 0x34, 3, [0, 0, 1, 0, 1, 1, 0, 0]);
  }

  lemma {:induction false} LastDigits()
    ensures Widen(BitsOf(0x35, 8)) == WordOf(0x35) && Widen(BitsOf(0x36, 8)) == WordOf(0x36)
    ensures Widen(BitsOf(0x37, 8)) == WordOf(0x37) && Widen(BitsOf(0x38, 8)) == WordOf(0x38)
    ensures Widen(BitsOf(0x39, 8)) == WordOf(0x39)
  {
    ByteIs(0x35, 0x35, 3, [1, 0, 1, 0, 1, 1, 0, 0]);
    ByteIs(0x36, 0x36, 3, [0, 1, 1, 0, 1, 1, 0, 0]);
    ByteIs(0x37, 0x37, 3, [1, 1, 1, 0, 1, 1, 0, 0]);
    ByteIs(0x38, 0x38, 3, [0, 0, 0, 1, 1, 1, 0, 0]);
    ByteIs(0x39, 0x39, 3, [1, 0, 0, 1, 1, 1, 0, 0]);
  }

  lemma {:induction false} AbsorbOne(f: bv32 -> bv32, c: bv32, bytes: seq<bv32>, i: nat, next: bv32)
    requires i < |bytes| && f(c ^ bytes[i]) == next
    ensures Absorb32(f, c, bytes[i..]) == Absorb32(f, next, bytes[i + 1..])
  {
    assert bytes[i..][1..] == bytes[i + 1..];
  }

  lemma {:induction false} FirstAbsorbed(bytes: seq<bv32>)
    requires bytes == [0x31, 0x32, 0x33, 0x34, 0x35, 0x36, 0x37, 0x38, 0x39]
    ensures Absorb32(EightSteps, 0xFFFF_FFFF, bytes) == Absorb32(EightSteps, 0x641C_1F5C, bytes[4..])
  {
    assert bytes[0..] == bytes;
    AbsorbOne(EightSteps, 0xFFFF_FFFF, bytes, 0, 0x7C23_1048);
    AbsorbOne(EightSteps, 0x7C23_1048, bytes, 1, 0xB0AC_BB32);
    AbsorbOne(EightSteps, 0xB0AC_BB32, bytes, 2, 0x77B7_9C2D);
    AbsorbOne(EightSteps, 0x77B7_9C2D, bytes, 3, 0x641C_1F5C);
  }

  lemma {:induction false} LastAbsorbed(bytes: seq<bv32>)
    requires bytes == [0x31, 0x32, 0x33, 0x34, 0x35, 0x36, 0x37, 0x38, 0x39]
    ensures Absorb32(EightSteps, 0x641C_1F5C, bytes[4..]) == 0x340B_C6D9
  {
    assert bytes[9..] == [];
    AbsorbOne(EightSteps, 0x641C_1F5C, bytes, 4, 0x340A_C5E3);
    AbsorbOne(EightSteps, 0x340A_C5E3, bytes, 5, 0xF68D_2C9E);
    AbsorbOne(EightSteps, 0xF68D_2C9E, bytes, 6, 0xAFFC_9660);
    AbsorbOne(EightSteps, 0xAFFC_9660, bytes, 7, 0x651F_2550);
    AbsorbOne(EightSteps, 0x651F_2550, bytes, 8, 0x340B_C6D9);
  }

  /** The published check value of CRC-32: the checksum of "123456789" is 0xCBF43926. */
  lemma {:induction false} CheckValue()
    ensures Checksum(WordOf(0), CHECK_INPUT) == WordOf(0xCBF4_3926)
  {
    var bytes := [0x31 as bv32, 0x32, 0x33, 0x34, 0x35, 0x36, 0x37, 0x38, 0x39];
    CheckBytes(bytes);
    FirstAbsorbed(bytes);
    LastAbsorbed(bytes);
    ChecksumOfWord(0, 0xFFFF_FFFF, CHECK_INPUT, bytes, 0x340B_C6D9, 0xCBF4_3926);
  }
}
