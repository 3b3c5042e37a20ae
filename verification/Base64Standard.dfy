/** The encoding in terms of RFC 4648: the alphabet, the 24-bit groups, the pads, and the test
    vectors of its section 10. */
module Base64Standard {
  import opened Base64
  import Base64Modes

  const UPPER := "ABCDEFGHIJKLMNOPQRSTUVWXYZ"
  const LOWER := "abcdefghijklmnopqrstuvwxyz"

  lemma {:induction false} LettersAre(i: nat)
    requires i < 26
    ensures UPPER[i] as int == i + 65 && LOWER[i] as int == i + 97 && (i < 10 ==> "0123456789"[i] as int == i + 48)
  {
  }

  lemma {:induction false} EncodeCharIs(c: Byte)
    ensures c < 64 <==> c as int < 64
    ensures c as int < 26 ==> EncodeChar(c) as int == c as int + 65
    ensures 26 <= c as int < 52 ==> EncodeChar(c) as int == c as int + 71
    ensures 52 <= c as int < 62 ==> EncodeChar(c) as int == c as int - 4
    ensures EncodeChar(62) as char == '+' && EncodeChar(63) as char == '/'
  {
  }

  /** The table of the encoder. */
  lemma {:induction false} AlphabetIs(c: Byte)
    requires c < 64
    ensures c as int < 64 && EncodeChar(c) as char
      == ("ABCDEFGHIJKLMNOPQRSTUVWXYZ" + "abcdefghijklmnopqrstuvwxyz" + "0123456789+/")[c as int]
  {
    var i := c as int;
    EncodeCharIs(c);
    if i < 26 { LettersAre(i); } else if i < 52 { LettersAre(i - 26); } else if i < 62 { LettersAre(i - 52); }
  }

  /** The table of the decoder: for the alphabet the inverse, and three kinds of other characters. */
  lemma {:induction false} DecodeTableIs(ch: Byte)
    ensures DecodeTable(ch) < 64 ==> EncodeChar(DecodeTable(ch)) == ch
    ensures DecodeTable(ch) == 0xFD <==> ch as char == '='
    ensures DecodeTable(ch) == 0xFE <==> ch as int in {9, 10, 11, 12, 13, 32}
    ensures DecodeTable(ch) < 64 || DecodeTable(ch) in {0xFD, 0xFE, 0xFF}
  {
  }

  // ---------------------------------------------------------------- 24 bits at a time

  /** Four sextets are the same 24-bit number as the three bytes. */
  lemma {:induction false} SameNumber(a: Byte, b: Byte, c: Byte)
    ensures (Sextet0(a) as bv24) * 0x40000 + (Sextet1(a, b) as bv24) * 0x1000
            + (Sextet2(b, c) as bv24) * 0x40 + (Sextet3(c) as bv24)
         == (a as bv24) * 0x10000 + (b as bv24) * 0x100 + (c as bv24)
  {
  }

  lemma {:induction false} SameNumberBack(p: Byte, q: Byte, r: Byte, s: Byte)
    requires p < 64 && q < 64 && r < 64 && s < 64
    ensures (Byte0(p, q) as bv24) * 0x10000 + (Byte1(q, r) as bv24) * 0x100 + (Byte2(r, s) as bv24)
         == (p as bv24) * 0x40000 + (q as bv24) * 0x1000 + (r as bv24) * 0x40 + (s as bv24)
  {
  }

  /** The characters e encode the bytes a, b, c, of which n are there. */
  ghost predicate IsQuantum(e: seq<Byte>, n: nat, a: Byte, b: Byte, c: Byte) {
    && |e| == 4 && (forall i :: 0 <= i < 4 ==> if i <= n then DecodeTable(e[i]) < 64 else e[i] as char == '=')
    && (DecodeTable(e[0]) as bv24) * 0x40000 + (DecodeTable(e[1]) as bv24) * 0x1000
       + (if n < 2 then 0 else (DecodeTable(e[2]) as bv24) * 0x40)
       + (if n < 3 then 0 else DecodeTable(e[3]) as bv24)
    == (a as bv24) * 0x10000 + (if n < 2 then 0 else (b as bv24) * 0x100) + (if n < 3 then 0 else c as bv24)
  }

  lemma {:induction false} ShortNumbers(a: Byte, b: Byte)
    ensures (Sextet0(a) as bv24) * 0x40000 + (Sextet1(a, 0) as bv24) * 0x1000 == (a as bv24) * 0x10000
    ensures (Sextet0(a) as bv24) * 0x40000 + (Sextet1(a, b) as bv24) * 0x1000 + (Sextet2(b, 0) as bv24) * 0x40
         == (a as bv24) * 0x10000 + (b as bv24) * 0x100
  {
  }

  lemma {:induction false} GroupIsQuantum(d: seq<Byte>, a: Byte, b: Byte, c: Byte)
    requires 1 <= |d| <= 3 && a == d[0] && (|d| > 1 ==> b == d[1]) && (|d| > 2 ==> c == d[2])
    ensures IsQuantum(Group(d), |d|, a, b, c)
  {
    var b0, c0 := if |d| > 1 then b else 0, if |d| > 2 then c else 0;
    TablesAreInverse(Sextet0(a), 0);
    TablesAreInverse(Sextet1(a, b0), 0);
    TablesAreInverse(Sextet2(b0, c0), 0);
    TablesAreInverse(Sextet3(c0), 0);
    if |d| == 3 { SameNumber(a, b, c); } else { ShortNumbers(a, b); }
  }

  /** The k-th three bytes of the data, or what there is of them, stand at that place of its encoding. */
  ghost predicate Holds(d: seq<Byte>, e: seq<Byte>, k: nat) {
    && 3 * k < |d| && 4 * k + 4 <= |e|
    && forall q, n: nat, a, b, c ::
         q == e[4 * k..4 * k + 4] && n == (if |d| - 3 * k < 3 then |d| - 3 * k else 3)
         && a == d[3 * k] && (n > 1 ==> b == d[3 * k + 1]) && (n > 2 ==> c == d[3 * k + 2])
         ==> IsQuantum(q, n, a, b, c)
  }

  lemma {:induction false} FirstHolds(d: seq<Byte>, e: seq<Byte>, g: seq<Byte>, rest: seq<Byte>, k: nat)
    requires d != [] && g == d[..Min3(|d|)] && e == Group(g) + rest && k == 0
    ensures Holds(d, e, k)
  {
    assert e[..4] == Group(g);
    forall a, b, c | a == d[0] && (|g| > 1 ==> b == d[1]) && (|g| > 2 ==> c == d[2])
      ensures IsQuantum(Group(g), |g|, a, b, c)
    {
      GroupIsQuantum(g, a, b, c);
    }
  }

  lemma {:induction false} LaterHolds(d: seq<Byte>, e: seq<Byte>, g: seq<Byte>, t: seq<Byte>, front: seq<Byte>,
                                      rest: seq<Byte>, k: nat)
    requires |g| == 3 && |front| == 4 && d == g + t && e == front + rest && k > 0 && Holds(t, rest, k - 1)
    ensures Holds(d, e, k)
  {
    assert e[4 * k..4 * k + 4] == rest[4 * (k - 1)..4 * (k - 1) + 4];
  }

  /** Every three bytes of any data stand at their place of the encoding, which ends with them. */
  lemma {:induction false} EncodingIsPositional(d: seq<Byte>, e: seq<Byte>, k: nat)
    requires 3 * k < |d| && e == Encode(d)
    ensures Holds(d, e, k) && |e| == (|d| + 2) / 3 * 4
    decreases k
  {
    var g, t := d[..Min3(|d|)], d[Min3(|d|)..];
    Base64Modes.EncodeSplits(d, g, t);
    if k == 0 {
      FirstHolds(d, e, g, Encode(t), k);
    } else {
      EncodingIsPositional(t, Encode(t), k - 1);
      LaterHolds(d, e, g, t, Group(g), Encode(t), k);
    }
  }

  // ---------------------------------------------------------------- section 10

  /** The vectors for f, fo, foo and foobar. */
  lemma {:induction false} TestVectors(f: Byte, o: Byte, b: Byte, a: Byte, r: Byte)
    requires f as char == 'f' && o as char == 'o' && b as char == 'b' && a as char == 'a' && r as char == 'r'
    ensures Encode([]) == []
    ensures Spell(Encode([f]), "Zg==") && Spell(Encode([f, o]), "Zm8=")
    ensures Spell(Encode([f, o, o]), "Zm9v") && Spell(Encode([f, o, o, b, a, r]), "Zm9vYmFy")
  {
    assert f == 102 && o == 111 && b == 98 && a == 97 && r == 114;
    var d, e := [f, o, o, b, a, r], [b, a, r];
    assert d[..3] == [f, o, o] && d[3..] == e && e[..3] == e && e[3..] == [];
    assert Encode(d) == Group([f, o, o]) + (Group(e) + []);
  }

  ghost predicate Spell(e: seq<Byte>, s: string) {
    |e| == |s| && forall i :: 0 <= i < |s| ==> e[i] as char == s[i]
  }
}
