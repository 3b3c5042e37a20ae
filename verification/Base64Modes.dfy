/** What the Base64 decoder accepts: the strict mode is the exact inverse of the encoder, every mode
    that allows pads reads encoder output, and the parse-any mode sees only alphabet characters. */
module Base64Modes {
  import opened Base64

  // ---------------------------------------------------------------- scanning well-formed text

  /** The codes q stand at pos. */
  ghost predicate At(codes: seq<Byte>, pos: nat, q: seq<Byte>) {
    pos + |q| <= |codes| && forall i :: 0 <= i < |q| ==> codes[pos + i] == q[i]
  }

  ghost predicate AreSextets(q: seq<Byte>) { forall i :: 0 <= i < |q| ==> q[i] < 64 }

  /** Data characters for the sextets q, of which k are taken already; in any mode. */
  lemma {:induction false} ScanTakes(parse: ParseMode, ip: bool, codes: seq<Byte>, pos: nat, q: seq<Byte>, k: nat)
    requires k <= |q| <= 4 && At(codes, pos, q) && AreSextets(q)
    ensures ScanFrom(parse, ip, codes, Scan(pos + k, q[..k], 0, 0))
         == ScanFrom(parse, ip, codes, Scan(pos + |q|, q, 0, 0))
    decreases |q| - k
  {
    if k == |q| {
      assert q[..k] == q;
    } else {
      assert q[..k] + [q[k]] == q[..k + 1];
      assert codes[pos + k] == q[k];
      ScanTakes(parse, ip, codes, pos, q, k + 1);
    }
  }

  lemma {:induction false} ScanQuad(parse: ParseMode, ip: bool, codes: seq<Byte>, pos: nat, q: seq<Byte>)
    requires |q| == 4 && At(codes, pos, q) && AreSextets(q)
    ensures ScanFrom(parse, ip, codes, Scan(pos, [], 0, 0)) == Scan(pos + 4, q, 0, 0)
  {
    ScanTakes(parse, ip, codes, pos, q, 0);
    assert q[..0] == [];
  }

  /** One pad character where it belongs. */
  lemma {:induction false} ScanPad(parse: ParseMode, codes: seq<Byte>, s: Scan)
    requires s.pos < |codes| && 2 <= |s.sextets| && |s.sextets| + s.padLen < 4 && codes[s.pos] == PD
    ensures ScanFrom(parse, false, codes, s) == ScanFrom(parse, false, codes,
      Scan(s.pos + 1, s.sextets, s.padLen + 1, if s.padLen == 0 then s.pos else s.padStart))
  {
  }

  /** The pads that complete a short last quantum. */
  function Pads(n: nat): (p: seq<Byte>)
    ensures |p| == n && forall i :: 0 <= i < n ==> p[i] == PD
  {
    seq(n, i => PD)
  }

  lemma {:induction false} ScanPadded(parse: ParseMode, codes: seq<Byte>, pos: nat, q: seq<Byte>)
    requires pos + 4 == |codes| && 2 <= |q| <= 3 && At(codes, pos, q) && AreSextets(q)
    requires At(codes, pos + |q|, Pads(4 - |q|))
    ensures ScanFrom(parse, false, codes, Scan(pos, [], 0, 0)) == Scan(pos + 4, q, 4 - |q|, pos + |q|)
  {
    ScanTakes(parse, false, codes, pos, q, 0);
    assert q[..0] == [];
    var p := Pads(4 - |q|);
    assert codes[pos + |q| + 0] == p[0];
    ScanPad(parse, codes, Scan(pos + |q|, q, 0, 0));
    if |q| == 2 {
      assert codes[pos + |q| + 1] == p[1];
      ScanPad(parse, codes, Scan(pos + 3, q, 1, pos + 2));
    }
  }

  /** The sextets of one to three bytes. */
  function SextetsOf(d: seq<Byte>): (q: seq<Byte>)
    requires 1 <= |d| <= 3
    ensures |q| == |d| + 1 && forall i :: 0 <= i < |q| ==> q[i] < 64
  {
    if |d| == 1 then [Sextet0(d[0]), Sextet1(d[0], 0)]
    else if |d| == 2 then [Sextet0(d[0]), Sextet1(d[0], d[1]), Sextet2(d[1], 0)]
    else [Sextet0(d[0]), Sextet1(d[0], d[1]), Sextet2(d[1], d[2]), Sextet3(d[2])]
  }

  /** The codes of a group: its sextets, then its pads. */
  lemma {:induction false} GroupDecodes(d: seq<Byte>)
    requires 1 <= |d| <= 3
    ensures Codes(Group(d)) == SextetsOf(d) + Pads(3 - |d|)
    ensures BytesOf(SextetsOf(d)) == d && UnusedBits(SextetsOf(d)) == 0
  {
    var q, g := SextetsOf(d), Group(d);
    forall i | 0 <= i < 4 ensures DecodeTable(g[i]) == (q + Pads(3 - |d|))[i] {
      if i < |q| {
        TablesAreInverse(q[i], 0);
        assert g[i] == EncodeChar(q[i]);
      } else {
        TablesAreInverse(0, g[i]);
      }
    }
    GroupPacks(d);
  }

  lemma {:induction false} GroupPacks(d: seq<Byte>)
    requires 1 <= |d| <= 3
    ensures BytesOf(SextetsOf(d)) == d && UnusedBits(SextetsOf(d)) == 0
  {
    PackedBytes(d[0], if |d| > 1 then d[1] else 0, if |d| > 2 then d[2] else 0);
    if |d| == 1 { NoUnusedBits(d[0], 0); } else if |d| == 2 { NoUnusedBits(d[0], d[1]); }
  }

  lemma {:induction false} NoUnusedBits(a: Byte, b: Byte)
    ensures Byte1(Sextet1(a, 0), 0) == 0 && Byte2(Sextet2(b, 0), 0) == 0
  {
  }

  predicate AllowsPads(flags: Flags, d: seq<Byte>) { flags.pad != PadNo || |d| % 3 == 0 }

  lemma {:induction false} DecodeFullQuantum(flags: Flags, codes: seq<Byte>, pos: nat, q: seq<Byte>)
    requires |q| == 4 && At(codes, pos, q) && AreSextets(q)
    ensures var rest := DecodeFrom(flags, codes, pos + 4);
      DecodeFrom(flags, codes, pos) == Prepend(BytesOf(q), rest)
  {
    ScanQuad(flags.parse, flags.pad == PadNo, codes, pos, q);
  }

  lemma {:induction false} DecodeLastQuantum(flags: Flags, codes: seq<Byte>, pos: nat, q: seq<Byte>)
    requires pos + 4 == |codes| && 2 <= |q| <= 3 && At(codes, pos, q) && AreSextets(q)
    requires At(codes, pos + |q|, Pads(4 - |q|)) && flags.pad != PadNo && UnusedBits(q) == 0
    ensures DecodeFrom(flags, codes, pos) == Decoded(true, BytesOf(q), |codes|)
  {
    ScanPadded(flags.parse, codes, pos, q);
  }

  lemma {:induction false} SplitAt(codes: seq<Byte>, pos: nat, a: seq<Byte>, b: seq<Byte>)
    requires pos <= |codes| && codes[pos..] == a + b
    ensures At(codes, pos, a) && codes[pos + |a|..] == b
  {
    assert forall i :: 0 <= i < |a| ==> codes[pos + i] == codes[pos..][i];
    assert codes[pos + |a|..] == codes[pos..][|a|..];
  }

  lemma {:induction false} CodesConcat(a: seq<Byte>, b: seq<Byte>)
    ensures Codes(a + b) == Codes(a) + Codes(b)
  {
  }

  /** One group at pos. */
  lemma {:induction false} DecodeGroup(flags: Flags, codes: seq<Byte>, pos: nat, g: seq<Byte>, tail: seq<Byte>)
    requires 1 <= |g| <= 3 && pos <= |codes| && codes[pos..] == Codes(Group(g)) + tail
    requires |g| < 3 ==> |tail| == 0 && flags.pad != PadNo
    ensures pos + 4 <= |codes| && codes[pos + 4..] == tail
    ensures DecodeFrom(flags, codes, pos) ==
      if |g| < 3 then Decoded(true, g, |codes|) else Prepend(g, DecodeFrom(flags, codes, pos + 4))
  {
    var q := SextetsOf(g);
    GroupDecodes(g);
    SplitAt(codes, pos, q + Pads(3 - |g|), tail);
    AtConcat(codes, pos, q, Pads(3 - |g|));
    if |g| == 3 {
      DecodeFullQuantum(flags, codes, pos, q);
    } else {
      DecodeLastQuantum(flags, codes, pos, q);
    }
  }

  lemma {:induction false} CodesOfEncode(d: seq<Byte>, g: seq<Byte>, t: seq<Byte>)
    requires d != [] && g == d[..Min3(|d|)] && t == d[Min3(|d|)..]
    ensures Codes(Encode(d)) == Codes(Group(g)) + Codes(Encode(t))
    ensures |g| < 3 ==> t == [] && Codes(Encode(t)) == []
    ensures g + t == d
  {
    EncodeSplits(d, g, t);
    CodesConcat(Group(g), Encode(t));
    if |g| < 3 { NothingEncoded(t); }
  }

  lemma {:induction false} EncodeSplits(d: seq<Byte>, g: seq<Byte>, t: seq<Byte>)
    requires d != [] && g == d[..Min3(|d|)] && t == d[Min3(|d|)..]
    ensures Encode(d) == Group(g) + Encode(t)
    ensures |g| < 3 ==> t == []
    ensures g + t == d
  {
  }

  lemma {:induction false} DecodeNextGroup(flags: Flags, codes: seq<Byte>, pos: nat, d: seq<Byte>, g: seq<Byte>,
                                           t: seq<Byte>)
    requires d != [] && g == d[..Min3(|d|)] && t == d[Min3(|d|)..]
    requires pos <= |codes| && codes[pos..] == Codes(Encode(d)) && AllowsPads(flags, d)
    ensures pos + 4 <= |codes| && codes[pos + 4..] == Codes(Encode(t))
    ensures DecodeFrom(flags, codes, pos) ==
      if |g| < 3 then Decoded(true, g, |codes|) else Prepend(g, DecodeFrom(flags, codes, pos + 4))
  {
    CodesOfEncode(d, g, t);
    DecodeGroup(flags, codes, pos, g, Codes(Encode(t)));
  }

  lemma {:induction false} JoinGroup(flags: Flags, codes: seq<Byte>, pos: nat, g: seq<Byte>, t: seq<Byte>, d: seq<Byte>)
    requires pos + 4 <= |codes| && g == d[..Min3(|d|)] && t == d[Min3(|d|)..]
    requires DecodeFrom(flags, codes, pos) ==
      if |g| < 3 then Decoded(true, g, |codes|) else Prepend(g, DecodeFrom(flags, codes, pos + 4))
    requires |g| == 3 ==> DecodeFrom(flags, codes, pos + 4) == Decoded(true, t, |codes|)
    ensures DecodeFrom(flags, codes, pos) == Decoded(true, d, |codes|)
  {
    assert g + t == d;
  }

  /** Every mode that allows the pads reads encoder output completely and exactly. */
  lemma {:induction false} EncodedDecodes(flags: Flags, codes: seq<Byte>, pos: nat, d: seq<Byte>)
    requires pos <= |codes| && codes[pos..] == Codes(Encode(d)) && AllowsPads(flags, d)
    ensures DecodeFrom(flags, codes, pos) == Decoded(true, d, |codes|)
    decreases |d|
  {
    if d == [] {
      NothingEncoded(d);
    } else {
      var g, t := d[..Min3(|d|)], d[Min3(|d|)..];
      DecodeNextGroup(flags, codes, pos, d, g, t);
      RestAllowsPads(flags, d, t);
      if |g| == 3 { EncodedDecodes(flags, codes, pos + 4, t); }
      JoinGroup(flags, codes, pos, g, t, d);
    }
  }

  lemma {:induction false} RestAllowsPads(flags: Flags, d: seq<Byte>, t: seq<Byte>)
    requires d != [] && t == d[Min3(|d|)..] && AllowsPads(flags, d)
    ensures AllowsPads(flags, t) && |t| < |d|
  {
  }

  lemma {:induction false} NothingEncoded(d: seq<Byte>)
    requires d == []
    ensures Codes(Encode(d)) == []
  {
  }

  lemma {:induction false} AtConcat(codes: seq<Byte>, pos: nat, a: seq<Byte>, b: seq<Byte>)
    requires At(codes, pos, a + b)
    ensures At(codes, pos, a) && At(codes, pos + |a|, b)
  {
    forall i | 0 <= i < |a| ensures codes[pos + i] == a[i] { assert codes[pos + i] == (a + b)[i]; }
    forall i | 0 <= i < |b| ensures codes[pos + |a| + i] == b[i] { assert codes[pos + (|a| + i)] == (a + b)[|a| + i]; }
  }

  // ---------------------------------------------------------------- the strict mode

  /** What the strict scan has passed since start: data characters, then pads, and nothing else. */
  ghost predicate Clean(codes: seq<Byte>, start: nat, s: Scan) {
    && start + |s.sextets| + s.padLen == s.pos && |s.sextets| + s.padLen <= 4
    && (s.padLen > 0 ==> |s.sextets| >= 2)
    && At(codes, start, s.sextets) && AreSextets(s.sextets)
    && s.pos <= |codes| && forall i :: start + |s.sextets| <= i < s.pos ==> codes[i] == PD
  }

  /** Every code of a text is one of the four kinds. */
  ghost predicate AreCodes(codes: seq<Byte>) {
    forall i :: 0 <= i < |codes| ==> codes[i] < 64 || codes[i] in {PD, SP, IL}
  }

  lemma {:induction false} StrictScanIsClean(ip: bool, codes: seq<Byte>, start: nat, s: Scan)
    requires AreCodes(codes) && Clean(codes, start, s)
    ensures Clean(codes, start, ScanFrom(ParseStrict, ip, codes, s))
    decreases |codes| - s.pos
  {
    if |s.sextets| >= 4 || s.pos >= |codes| {
    } else {
      var v := codes[s.pos];
      var step := Decide(ParseStrict, ip, v, |s.sextets|, s.padLen);
      if step != Stop {
        StrictScanIsClean(ip, codes, start, Advance(s, step, v));
      }
    }
  }

  /** A complete quantum without unused bits is the group of the bytes it yields. */
  lemma {:induction false} CleanQuantumIsGroup(data: seq<Byte>, pos: nat, s: Scan)
    requires Clean(Codes(data), pos, s) && |s.sextets| >= 2 && |s.sextets| + s.padLen == 4
    requires UnusedBits(s.sextets) == 0
    ensures 1 <= |BytesOf(s.sextets)| == |s.sextets| - 1 && data[pos..pos + 4] == Group(BytesOf(s.sextets))
  {
    var q := s.sextets;
    var w, g := data[pos..pos + 4], Group(BytesOf(q));
    CanonicalSextets(q);
    GroupDecodes(BytesOf(q));
    forall i | 0 <= i < 4 ensures w[i] == g[i] {
      if i < |q| {
        SameChar(data[pos + i], g[i], q[i]);
      } else {
        SameChar(data[pos + i], g[i], PD);
      }
    }
  }

  lemma {:induction false} SameChar(a: Byte, b: Byte, v: Byte)
    requires DecodeTable(a) == v && DecodeTable(b) == v && (v < 64 || v == PD)
    ensures a == b
  {
    TablesAreInverse(v, a);
    TablesAreInverse(v, b);
  }

  lemma {:induction false} CanonicalSextets(q: seq<Byte>)
    requires 2 <= |q| <= 4 && (forall i :: 0 <= i < |q| ==> q[i] < 64) && UnusedBits(q) == 0
    ensures |BytesOf(q)| == |q| - 1 && SextetsOf(BytesOf(q)) == q
  {
    var q2, q3 := if |q| > 2 then q[2] else 0, if |q| > 3 then q[3] else 0;
    PackedSextets(q[0], q[1], q2, q3);
    if |q| == 2 { PackedTwo(q[0], q[1]); } else if |q| == 3 { PackedThree(q[0], q[1], q[2]); }
  }

  lemma {:induction false} PackedTwo(p: Byte, q: Byte)
    requires p < 64 && q < 64 && Byte1(q, 0) == 0
    ensures Sextet0(Byte0(p, q)) == p && Sextet1(Byte0(p, q), 0) == q
  {
  }

  lemma {:induction false} PackedThree(p: Byte, q: Byte, r: Byte)
    requires p < 64 && q < 64 && r < 64 && Byte2(r, 0) == 0
    ensures Sextet0(Byte0(p, q)) == p && Sextet1(Byte0(p, q), Byte1(q, r)) == q && Sextet2(Byte1(q, r), 0) == r
  {
  }

  /** Whatever the strict mode accepts is the encoding of what it returned. */
  lemma {:induction false} StrictSuccessIsEncoding(data: seq<Byte>, codes: seq<Byte>, pos: nat)
    requires codes == Codes(data) && AreCodes(codes) && pos <= |data| && DecodeFrom(STRICT, codes, pos).success
    ensures data[pos..] == Encode(DecodeFrom(STRICT, codes, pos).bytes)
    ensures DecodeFrom(STRICT, codes, pos).used == |data|
    decreases |data| - pos
  {
    if pos == |data| {
    } else {
      var s := ScanFrom(ParseStrict, false, codes, Scan(pos, [], 0, 0));
      var d := BytesOf(s.sextets);
      StrictScanIsClean(false, codes, pos, Scan(pos, [], 0, 0));
      StrictQuantum(codes, pos, s);
      CleanQuantumIsGroup(data, pos, s);
      if |d| < 3 {
        StrictJoin(data, pos, d, []);
        assert d + [] == d;
      } else {
        StrictSuccessIsEncoding(data, codes, pos + 4);
        StrictJoin(data, pos, d, DecodeFrom(STRICT, codes, pos + 4).bytes);
      }
    }
  }

  lemma {:induction false} StrictJoin(data: seq<Byte>, pos: nat, d: seq<Byte>, rest: seq<Byte>)
    requires pos + 4 <= |data| && 1 <= |d| <= 3 && (|d| < 3 ==> rest == [])
    requires data[pos..pos + 4] == Group(d) && data[pos + 4..] == Encode(rest)
    ensures data[pos..] == Encode(d + rest)
  {
    assert data[pos..] == data[pos..pos + 4] + data[pos + 4..];
    EncodeGroup(d, rest);
  }

  /** A quantum of a successful strict decoding is complete and uses all of its bits. */
  lemma {:induction false} StrictQuantum(codes: seq<Byte>, pos: nat, s: Scan)
    requires pos < |codes| && DecodeFrom(STRICT, codes, pos).success
    requires s == ScanFrom(ParseStrict, false, codes, Scan(pos, [], 0, 0)) && Clean(codes, pos, s)
    ensures |s.sextets| >= 2 && |s.sextets| + s.padLen == 4 && UnusedBits(s.sextets) == 0 && s.pos == pos + 4
    ensures if |s.sextets| < 4 then
        DecodeFrom(STRICT, codes, pos) == Decoded(true, BytesOf(s.sextets), |codes|) && pos + 4 == |codes|
      else
        DecodeFrom(STRICT, codes, pos) == Prepend(BytesOf(s.sextets), DecodeFrom(STRICT, codes, pos + 4))
  {
  }

  lemma {:induction false} EncodeGroup(d: seq<Byte>, rest: seq<Byte>)
    requires 1 <= |d| <= 3 && (|d| < 3 ==> rest == [])
    ensures Encode(d + rest) == Group(d) + Encode(rest)
  {
    var n := Min3(|d + rest|);
    assert (d + rest)[..n] == d && (d + rest)[n..] == rest;
  }

  lemma {:induction false} CodesAreCodes(data: seq<Byte>)
    ensures AreCodes(Codes(data))
  {
    forall i | 0 <= i < |data| ensures Codes(data)[i] < 64 || Codes(data)[i] in {PD, SP, IL} {
      TablesAreInverse(0, data[i]);
    }
  }

  /** The strict decoder accepts exactly the image of the encoder. */
  lemma {:induction false} StrictAcceptsExactlyEncodings(s: seq<Byte>, d: seq<Byte>)
    ensures Decode(s, STRICT).success && Decode(s, STRICT).bytes == d <==> s == Encode(d)
    ensures s == Encode(d) ==> Decode(s, STRICT) == Decoded(true, d, |s|)
  {
    assert s[0..] == s && Codes(s)[0..] == Codes(s);
    if Decode(s, STRICT).success {
      CodesAreCodes(s);
      StrictSuccessIsEncoding(s, Codes(s), 0);
    }
    if s == Encode(d) {
      EncodedDecodes(STRICT, Codes(s), 0, d);
    }
  }

  /** Any other mode that allows the pads agrees with the strict one on encoder output. */
  lemma {:induction false} EveryModeReadsEncodings(flags: Flags, d: seq<Byte>)
    requires AllowsPads(flags, d)
    ensures Decode(Encode(d), flags) == Decoded(true, d, |Encode(d)|)
  {
    var codes := Codes(Encode(d));
    assert codes[0..] == codes;
    EncodedDecodes(flags, codes, 0, d);
  }

  /** So the encoding loses nothing. */
  lemma {:induction false} EncodeInjective(d: seq<Byte>, e: seq<Byte>)
    requires Encode(d) == Encode(e)
    ensures d == e
  {
    StrictAcceptsExactlyEncodings(Encode(d), d);
    StrictAcceptsExactlyEncodings(Encode(d), e);
  }

  // ---------------------------------------------------------------- the parse-any mode

  /** The values of the alphabet characters of a text, in order. */
  function Alphabet(codes: seq<Byte>): seq<Byte> {
    if codes == [] then [] else (if codes[0] < 64 then [codes[0]] else []) + Alphabet(codes[1..])
  }

  /** The bytes of a run of sextets, four at a time. */
  function Regroup(q: seq<Byte>): seq<Byte> {
    if |q| < 4 then BytesOf(q) else BytesOf(q[..4]) + Regroup(q[4..])
  }

  /** The parse-any scan moves alphabet characters to the quantum and drops all others, until the
      quantum is full or the text ends. */
  lemma {:induction false} AnyScanTakesAlphabet(ip: bool, codes: seq<Byte>, s: Scan)
    requires AreCodes(codes) && s.pos <= |codes| && |s.sextets| <= 4
    ensures var r := ScanFrom(ParseAny, ip, codes, s);
      && r.sextets + Alphabet(codes[r.pos..]) == s.sextets + Alphabet(codes[s.pos..])
      && (|r.sextets| == 4 || r.pos == |codes|)
    decreases |codes| - s.pos
  {
    if |s.sextets| >= 4 || s.pos >= |codes| {
    } else {
      var v := codes[s.pos];
      var t := Advance(s, Decide(ParseAny, ip, v, |s.sextets|, s.padLen), v);
      assert codes[s.pos..][1..] == codes[t.pos..];
      assert t.sextets + Alphabet(codes[t.pos..]) == s.sextets + Alphabet(codes[s.pos..]);
      AnyScanTakesAlphabet(ip, codes, t);
    }
  }

  lemma {:induction false} AnyBytes(flags: Flags, codes: seq<Byte>, pos: nat)
    requires AreCodes(codes) && pos <= |codes| && flags.parse == ParseAny
    ensures DecodeFrom(flags, codes, pos).bytes == Regroup(Alphabet(codes[pos..]))
    decreases |codes| - pos
  {
    if pos == |codes| {
    } else {
      var ip := flags.pad == PadNo;
      var s := ScanFrom(ParseAny, ip, codes, Scan(pos, [], 0, 0));
      AnyScanTakesAlphabet(ip, codes, Scan(pos, [], 0, 0));
      var a, rest := Alphabet(codes[pos..]), Alphabet(codes[s.pos..]);
      assert [] + a == a;
      if |s.sextets| == 4 {
        assert a[..4] == s.sextets && a[4..] == rest;
        AnyBytes(flags, codes, s.pos);
      } else {
        assert rest == [] && s.sextets + [] == s.sextets;
      }
    }
  }

  /** Pads, white space and illegal characters anywhere, even across quantum boundaries, do not
      change what the parse-any mode decodes. */
  lemma {:induction false} AnyModeSeesOnlyTheAlphabet(flags: Flags, s: seq<Byte>, t: seq<Byte>)
    requires flags.parse == ParseAny && Alphabet(Codes(s)) == Alphabet(Codes(t))
    ensures Decode(s, flags).bytes == Decode(t, flags).bytes
  {
    assert Codes(s)[0..] == Codes(s) && Codes(t)[0..] == Codes(t);
    CodesAreCodes(s);
    CodesAreCodes(t);
    AnyBytes(flags, Codes(s), 0);
    AnyBytes(flags, Codes(t), 0);
  }

  /** The bits that a run of sextets leaves over. */
  function LeftOver(q: seq<Byte>): Byte { if |q| < 4 then UnusedBits(q) else LeftOver(q[4..]) }

  /** The lax mode, and any other that neither requires pads nor the end of the buffer: it fails exactly
      on bits left over, unless it may end inside a character. */
  lemma {:induction false} AnyModeFails(flags: Flags, codes: seq<Byte>, pos: nat)
    requires AreCodes(codes) && pos <= |codes|
    requires flags.parse == ParseAny && flags.pad != PadYes && flags.term != TermBuffer
    ensures DecodeFrom(flags, codes, pos).success
      <==> flags.term == TermAny || LeftOver(Alphabet(codes[pos..])) == 0
    decreases |codes| - pos
  {
    if pos == |codes| {
    } else {
      var s := ScanFrom(ParseAny, flags.pad == PadNo, codes, Scan(pos, [], 0, 0));
      AnyScanTakesAlphabet(flags.pad == PadNo, codes, Scan(pos, [], 0, 0));
      QuantumSucceeds(flags, codes, pos, s);
      LeftOverBehind(s.sextets, Alphabet(codes[s.pos..]), Alphabet(codes[pos..]));
      if |s.sextets| == 4 { AnyModeFails(flags, codes, s.pos); }
    }
  }

  lemma {:induction false} QuantumSucceeds(flags: Flags, codes: seq<Byte>, pos: nat, s: Scan)
    requires pos < |codes| && flags.pad != PadYes && flags.term != TermBuffer
    requires s == ScanFrom(flags.parse, flags.pad == PadNo, codes, Scan(pos, [], 0, 0))
    ensures DecodeFrom(flags, codes, pos).success
      <==> if |s.sextets| < 4 then flags.term == TermAny || UnusedBits(s.sextets) == 0
           else DecodeFrom(flags, codes, s.pos).success
  {
  }

  lemma {:induction false} LeftOverBehind(q: seq<Byte>, rest: seq<Byte>, all: seq<Byte>)
    requires |q| <= 4 && q + rest == [] + all && (|q| < 4 ==> rest == [])
    ensures LeftOver(all) == if |q| < 4 then UnusedBits(q) else LeftOver(rest)
  {
    assert all == q + rest;
    if |q| == 4 { assert all[4..] == rest; } else { assert all == q; }
  }
}
