/** What the flags of the Base64 decoder mean: white space is skipped, with one exception; what each
    pad mode accepts; and how the termination modes differ. */
module Base64Flags {
  import opened Base64
  import Base64Modes

  // ---------------------------------------------------------------- white space

  /** The codes before place i without white space. */
  function Seen(codes: seq<Byte>, i: nat): seq<Byte>
    requires i <= |codes|
  {
    if i == 0 then [] else Seen(codes, i - 1) + if codes[i - 1] == 0xFE then [] else [codes[i - 1]]
  }

  function Visible(codes: seq<Byte>): seq<Byte> { Seen(codes, |codes|) }

  lemma {:induction false} SeenGrows(codes: seq<Byte>, i: nat, j: nat)
    requires i <= j <= |codes|
    ensures Seen(codes, i) <= Seen(codes, j)
    decreases j
  {
    if i < j { SeenGrows(codes, i, j - 1); }
  }

  /** A visible code stands behind those seen before it. */
  lemma {:induction false} SeenNext(codes: seq<Byte>, i: nat)
    requires i < |codes|
    ensures codes[i] == 0xFE ==> Seen(codes, i + 1) == Seen(codes, i)
    ensures codes[i] != 0xFE ==>
      |Seen(codes, i)| < |Visible(codes)| && Visible(codes)[|Seen(codes, i)|] == codes[i]
      && |Seen(codes, i + 1)| == |Seen(codes, i)| + 1
  {
    SeenGrows(codes, i + 1, |codes|);
    if codes[i] == 0xFE { assert Seen(codes, i) + [] == Seen(codes, i); }
  }

  ghost predicate NoPads(codes: seq<Byte>, from: nat, to: nat) {
    to <= |codes| && forall i :: from <= i < to ==> codes[i] != 0xFD
  }

  /** A scan of the codes since start and one of the visible codes have come equally far. */
  ghost predicate Twin(codes: seq<Byte>, start: nat, s: Scan, t: Scan) {
    && start <= s.pos <= |codes| && t.pos == |Seen(codes, s.pos)| <= |Visible(codes)|
    && t.sextets == s.sextets && t.padLen == s.padLen
    && (s.padLen > 0 ==>
          && start <= s.padStart < s.pos && codes[s.padStart] == 0xFD && t.padStart == |Seen(codes, s.padStart)|)
    && (s.padLen == 0 ==> NoPads(codes, start, s.pos))
    && (|s.sextets| >= 4 ==> start < s.pos && codes[s.pos - 1] != 0xFE)
  }

  /** Both take the same decision on a visible code. */
  lemma {:induction false} TwinsAdvance(ip: bool, codes: seq<Byte>, start: nat, s: Scan, t: Scan, step: Step)
    requires Twin(codes, start, s, t) && s.pos < |codes| && |s.sextets| < 4
    requires codes[s.pos] != 0xFE && t.pos < |Visible(codes)| && Visible(codes)[t.pos] == codes[s.pos]
    requires step == Decide(ParseWhite, ip, codes[s.pos], |s.sextets|, s.padLen) && step != Stop
    requires |Seen(codes, s.pos + 1)| == |Seen(codes, s.pos)| + 1 <= |Visible(codes)|
    ensures step == Decide(ParseStrict, ip, Visible(codes)[t.pos], |t.sextets|, t.padLen)
    ensures Twin(codes, start, Advance(s, step, codes[s.pos]), Advance(t, step, codes[s.pos]))
  {
  }

  lemma {:induction false} WhiteScan(ip: bool, codes: seq<Byte>, start: nat, s: Scan, t: Scan)
    requires Twin(codes, start, s, t)
    ensures var r := ScanFrom(ParseWhite, ip, codes, s);
      && Twin(codes, start, r, ScanFrom(ParseStrict, ip, Visible(codes), t))
      && (|r.sextets| >= 4 || r.pos == |codes| || codes[r.pos] != 0xFE)
    decreases |codes| - s.pos
  {
    if |s.sextets| >= 4 || s.pos == |codes| {
    } else {
      var v := codes[s.pos];
      SeenNext(codes, s.pos);
      SeenGrows(codes, s.pos + 1, |codes|);
      var step := Decide(ParseWhite, ip, v, |s.sextets|, s.padLen);
      if v == 0xFE {
        WhiteScan(ip, codes, start, Advance(s, step, v), t);
      } else if step != Stop {
        TwinsAdvance(ip, codes, start, s, t, step);
        WhiteScan(ip, codes, start, Advance(s, step, v), Advance(t, step, v));
      }
    }
  }

  /** Padding is required, and the text from pos on ends in white space but has no pad. */
  ghost predicate Spoilt(pad: PadMode, codes: seq<Byte>, pos: nat) {
    pad == PadYes && pos < |codes| && codes[|codes| - 1] == 0xFE && NoPads(codes, pos, |codes|)
  }

  /** What decoding with white space gives, in terms of decoding the visible codes. */
  ghost predicate Agree(pad: PadMode, codes: seq<Byte>, pos: nat, w: Decoded, r: Decoded) {
    && w.bytes == r.bytes && w.used <= |codes| && r.used == |Seen(codes, w.used)|
    && (w.success <==> r.success && !Spoilt(pad, codes, pos))
  }

  /** Only white space is left. */
  lemma {:induction false} OnlySpaceLeft(flags: Flags, codes: seq<Byte>, pos: nat, r: Scan)
    requires flags.parse == ParseWhite && pos < |codes| && |Seen(codes, pos)| == |Visible(codes)|
    requires r == ScanFrom(ParseWhite, flags.pad == PadNo, codes, Scan(pos, [], 0, 0))
    ensures Agree(flags.pad, codes, pos, DecodeFrom(flags, codes, pos),
      DecodeFrom(flags.(parse := ParseStrict), Visible(codes), |Visible(codes)|))
  {
    WhiteScan(flags.pad == PadNo, codes, pos, Scan(pos, [], 0, 0), Scan(|Visible(codes)|, [], 0, 0));
    if r.pos < |codes| { SeenNext(codes, r.pos); }
    SeenGrows(codes, pos, |codes| - 1);
    SeenNext(codes, |codes| - 1);
  }

  /** The last, incomplete quantum: both end or stop at the same code, and roll back alike. */
  lemma {:induction false} ShortQuantum(codes: seq<Byte>, pos: nat, r: Scan, u: Scan)
    requires Twin(codes, pos, r, u) && |r.sextets| < 4
    requires r.pos == |codes| || codes[r.pos] != 0xFE
    ensures Finish(u).sextets == Finish(r).sextets && Finish(u).padded == Finish(r).padded
    ensures Finish(r).pos <= |codes| && Finish(u).pos == |Seen(codes, Finish(r).pos)|
    ensures Finish(u).pos == |Visible(codes)| <==> Finish(r).pos == |codes|
    ensures Finish(r).padded ==> !NoPads(codes, pos, |codes|)
  {
    var p := Finish(r).pos;
    if p < |codes| { SeenNext(codes, p); }
  }

  lemma {:induction false} ShortAgrees(flags: Flags, codes: seq<Byte>, pos: nat, vpos: nat, r: Scan, u: Scan)
    requires flags.parse == ParseWhite && pos < |codes| && vpos < |Visible(codes)|
    requires r == ScanFrom(ParseWhite, flags.pad == PadNo, codes, Scan(pos, [], 0, 0))
    requires u == ScanFrom(ParseStrict, flags.pad == PadNo, Visible(codes), Scan(vpos, [], 0, 0))
    requires Twin(codes, pos, r, u) && |r.sextets| < 4 && (r.pos == |codes| || codes[r.pos] != 0xFE)
    ensures Agree(flags.pad, codes, pos, DecodeFrom(flags, codes, pos),
      DecodeFrom(flags.(parse := ParseStrict), Visible(codes), vpos))
  {
    ShortQuantum(codes, pos, r, u);
  }

  lemma {:induction false} FullAgrees(flags: Flags, codes: seq<Byte>, pos: nat, vpos: nat, r: Scan, u: Scan)
    requires flags.parse == ParseWhite && pos < |codes| && vpos < |Visible(codes)|
    requires r == ScanFrom(ParseWhite, flags.pad == PadNo, codes, Scan(pos, [], 0, 0))
    requires u == ScanFrom(ParseStrict, flags.pad == PadNo, Visible(codes), Scan(vpos, [], 0, 0))
    requires Twin(codes, pos, r, u) && |r.sextets| == 4 && r.padLen == 0
    requires Agree(flags.pad, codes, r.pos, DecodeFrom(flags, codes, r.pos),
      DecodeFrom(flags.(parse := ParseStrict), Visible(codes), u.pos))
    ensures Agree(flags.pad, codes, pos, DecodeFrom(flags, codes, pos),
      DecodeFrom(flags.(parse := ParseStrict), Visible(codes), vpos))
  {
    assert Spoilt(flags.pad, codes, pos) <==> Spoilt(flags.pad, codes, r.pos);
  }

  lemma {:induction false} WhiteAgrees(flags: Flags, codes: seq<Byte>, pos: nat, vpos: nat)
    requires flags.parse == ParseWhite && pos <= |codes| && vpos == |Seen(codes, pos)| <= |Visible(codes)|
    ensures Agree(flags.pad, codes, pos, DecodeFrom(flags, codes, pos),
      DecodeFrom(flags.(parse := ParseStrict), Visible(codes), vpos))
    decreases |codes| - pos
  {
    if pos < |codes| {
      var ip := flags.pad == PadNo;
      var r := ScanFrom(ParseWhite, ip, codes, Scan(pos, [], 0, 0));
      var u := ScanFrom(ParseStrict, ip, Visible(codes), Scan(vpos, [], 0, 0));
      WhiteScan(ip, codes, pos, Scan(pos, [], 0, 0), Scan(vpos, [], 0, 0));
      if vpos == |Visible(codes)| {
        OnlySpaceLeft(flags, codes, pos, r);
      } else if |r.sextets| < 4 {
        ShortAgrees(flags, codes, pos, vpos, r, u);
      } else {
        WhiteAgrees(flags, codes, r.pos, u.pos);
        FullAgrees(flags, codes, pos, vpos, r, u);
      }
    }
  }

  predicate IsSpace(ch: Byte): (b: bool)
    ensures b <==> ch as char in " \t\n\r" || ch as int == 11 || ch as int == 12
  {
    9 <= ch <= 13 || ch == 32
  }

  /** A text without its white space. */
  function Squeezed(s: seq<Byte>): seq<Byte> {
    if s == [] then [] else Squeezed(s[..|s| - 1]) + if IsSpace(s[|s| - 1]) then [] else [s[|s| - 1]]
  }

  lemma {:induction false} SqueezedIsVisible(s: seq<Byte>, i: nat)
    requires i <= |s|
    ensures Codes(Squeezed(s[..i])) == Seen(Codes(s), i)
    decreases i
  {
    if i > 0 {
      SqueezedIsVisible(s, i - 1);
      assert s[..i][..i - 1] == s[..i - 1];
      Base64Modes.CodesConcat(Squeezed(s[..i - 1]), if IsSpace(s[i - 1]) then [] else [s[i - 1]]);
    }
  }

  predicate HasPad(s: seq<Byte>) { exists i :: 0 <= i < |s| && s[i] as char == '=' }

  /** Decoding with white space allowed is strict decoding of the text without it. The one exception is
      that, if padding is required, a text without pads may not end in white space. */
  lemma {:induction false} WhiteSpaceIsSkipped(s: seq<Byte>, pad: PadMode, term: TermMode)
    ensures var w, r := Decode(s, Flags(ParseWhite, pad, term)), Decode(Squeezed(s), Flags(ParseStrict, pad, term));
      && w.bytes == r.bytes && w.used <= |s| && r.used == |Squeezed(s[..w.used])|
      && var spoilt := pad == PadYes && s != [] && IsSpace(s[|s| - 1]) && !HasPad(s);
         (w.success <==> r.success && !spoilt)
  {
    var flags := Flags(ParseWhite, pad, term);
    SqueezedIsVisible(s, |s|);
    assert s[..|s|] == s;
    WhiteAgrees(flags, Codes(s), 0, 0);
    SqueezedIsVisible(s, Decode(s, flags).used);
    SpoiltText(s, pad, Codes(s));
  }

  lemma {:induction false} SpoiltText(s: seq<Byte>, pad: PadMode, codes: seq<Byte>)
    requires codes == Codes(s)
    ensures Spoilt(pad, codes, 0) <==> pad == PadYes && s != [] && IsSpace(s[|s| - 1]) && !HasPad(s)
  {
    forall i | 0 <= i < |s| ensures s[i] as char == '=' <==> codes[i] == 0xFD { PadIs(s[i]); }
    assert forall i :: 0 <= i < |s| ==> (s[i] as char == '=' <==> codes[i] == 0xFD);
  }

  lemma {:induction false} PadIs(ch: Byte)
    ensures ch as char == '=' <==> DecodeTable(ch) == 0xFD
  {
  }

  /** The encoder writes alphabet characters, and pads only behind a last one or two bytes. */
  ghost predicate Plain(e: seq<Byte>, padded: bool) {
    && (forall i :: 0 <= i < |e| ==> !IsSpace(e[i]))
    && (HasPad(e) <==> padded)
  }

  lemma {:induction false} CodesTell(e: seq<Byte>, codes: seq<Byte>, padded: bool)
    requires codes == Codes(e) && (forall i :: 0 <= i < |codes| ==> codes[i] != 0xFE)
    requires padded <==> exists i :: 0 <= i < |codes| && codes[i] == 0xFD
    ensures Plain(e, padded)
  {
    forall i | 0 <= i < |e| ensures !IsSpace(e[i]) && (e[i] as char == '=' <==> codes[i] == 0xFD) { PadIs(e[i]); }
    if padded {
      var i :| 0 <= i < |codes| && codes[i] == 0xFD;
      assert e[i] as char == '=';
    }
  }

  lemma {:induction false} EncodedIsPlain(d: seq<Byte>, codes: seq<Byte>)
    requires codes == Codes(Encode(d))
    ensures forall i :: 0 <= i < |codes| ==> codes[i] < 64 || codes[i] == 0xFD
    ensures |d| % 3 != 0 <==> exists i :: 0 <= i < |codes| && codes[i] == 0xFD
    decreases |d|
  {
    if d == [] {
    } else {
      var g, t := d[..Min3(|d|)], d[Min3(|d|)..];
      Base64Modes.CodesOfEncode(d, g, t);
      Base64Modes.GroupDecodes(g);
      EncodedIsPlain(t, Codes(Encode(t)));
      OneMoreGroup(g, Base64Modes.SextetsOf(g), Codes(Encode(t)), |t|);
    }
  }

  lemma {:induction false} OneMoreGroup(g: seq<Byte>, q: seq<Byte>, rest: seq<Byte>, n: nat)
    requires 1 <= |g| <= 3 && (|g| < 3 ==> n == 0 && rest == []) && |q| == |g| + 1
    requires forall i :: 0 <= i < |q| ==> q[i] < 64
    requires forall i :: 0 <= i < |rest| ==> rest[i] < 64 || rest[i] == 0xFD
    requires n % 3 != 0 <==> exists i :: 0 <= i < |rest| && rest[i] == 0xFD
    ensures var codes := q + Base64Modes.Pads(3 - |g|) + rest;
      && (forall i :: 0 <= i < |codes| ==> codes[i] < 64 || codes[i] == 0xFD)
      && ((|g| + n) % 3 != 0 <==> exists i :: 0 <= i < |codes| && codes[i] == 0xFD)
  {
    var codes := q + Base64Modes.Pads(3 - |g|) + rest;
    if |g| < 3 {
      assert codes[3] == 0xFD;
    } else if n % 3 != 0 {
      var i :| 0 <= i < |rest| && rest[i] == 0xFD;
      assert codes[4 + i] == 0xFD;
    }
  }

  lemma {:induction false} NothingToSqueeze(e: seq<Byte>)
    requires forall i :: 0 <= i < |e| ==> !IsSpace(e[i])
    ensures Squeezed(e) == e
    decreases |e|
  {
    if e != [] { NothingToSqueeze(e[..|e| - 1]); }
  }

  /** White space behind an encoding: where padding is required, it is refused if there is none. */
  lemma {:induction false} TrailingSpace(d: seq<Byte>, c: Byte, e: seq<Byte>, s: seq<Byte>)
    requires IsSpace(c) && e == Encode(d) && s == e + [c]
    ensures var w := Decode(s, Flags(ParseWhite, PadYes, TermBuffer));
      w.bytes == d && (w.success <==> |d| % 3 != 0)
    ensures var w := Decode(s, Flags(ParseWhite, PadAny, TermBuffer));
      w.bytes == d && w.success
  {
    EncodedIsPlain(d, Codes(e));
    CodesTell(e, Codes(e), |d| % 3 != 0);
    NothingToSqueeze(e);
    PadsOfMore(e, c, s);
    WhiteSpaceIsSkipped(s, PadYes, TermBuffer);
    WhiteSpaceIsSkipped(s, PadAny, TermBuffer);
    Base64Modes.EveryModeReadsEncodings(Flags(ParseStrict, PadYes, TermBuffer), d);
    Base64Modes.EveryModeReadsEncodings(Flags(ParseStrict, PadAny, TermBuffer), d);
  }

  lemma {:induction false} PadsOfMore(e: seq<Byte>, c: Byte, s: seq<Byte>)
    requires s == e + [c] && IsSpace(c)
    ensures HasPad(s) <==> HasPad(e)
    ensures Squeezed(s) == Squeezed(e)
  {
    if HasPad(e) {
      var i :| 0 <= i < |e| && e[i] as char == '=';
      assert s[i] as char == '=';
    }
    PadIs(c);
    assert s[..|e|] == e && Squeezed(e) + [] == Squeezed(e);
  }

  // ---------------------------------------------------------------- pad modes

  /** An encoding without its pads. */
  function Unpadded(d: seq<Byte>): seq<Byte> { Encode(d)[..(4 * |d| + 2) / 3] }

  lemma {:induction false} UnpaddedShort(d: seq<Byte>)
    requires |d| < 3
    ensures Unpadded(d) == if d == [] then [] else Group(d)[..|d| + 1]
  {
    if d != [] {
      assert d[..|d|] == d && d[|d|..] == [];
      assert Encode(d) == Group(d) + [];
    }
  }

  lemma {:induction false} UnpaddedStep(g: seq<Byte>, t: seq<Byte>)
    requires |g| == 3
    ensures Encode(g + t) == Group(g) + Encode(t) && Unpadded(g + t) == Group(g) + Unpadded(t)
  {
    Base64Modes.EncodeGroup(g, t);
  }

  /** What the strict parser accepts in each pad mode, up to the end of the buffer. A lone sextet of
      zeros, the letter A, counts as no byte at all and is accepted behind complete groups. */
  ghost predicate Accepted(pad: PadMode, s: seq<Byte>, d: seq<Byte>) {
    OneOf(pad, s, Encode(d), Unpadded(d), |d| % 3 == 0)
  }

  ghost predicate OneOf(pad: PadMode, s: seq<Byte>, padded: seq<Byte>, bare: seq<Byte>, complete: bool) {
    || (s == padded && pad != PadNo)
    || (s == bare && pad != PadYes)
    || (s == padded + [65] && complete && pad != PadYes)
  }

  lemma {:induction false} OneOfJoins(pad: PadMode, g: seq<Byte>, s: seq<Byte>, padded: seq<Byte>, bare: seq<Byte>,
                                      complete: bool)
    requires OneOf(pad, s, padded, bare, complete)
    ensures OneOf(pad, g + s, g + padded, g + bare, complete)
  {
    Regroup(g, padded, [65]);
  }

  lemma {:induction false} AcceptedJoins(pad: PadMode, g: seq<Byte>, s: seq<Byte>, t: seq<Byte>)
    requires |g| == 3 && Accepted(pad, s, t)
    ensures Accepted(pad, Group(g) + s, g + t)
  {
    UnpaddedStep(g, t);
    OneOfJoins(pad, Group(g), s, Encode(t), Unpadded(t), |t| % 3 == 0);
  }

  /** A scan takes no pad where pads are illegal, and remembers where the pads began. */
  lemma {:induction false} PadsOfScan(parse: ParseMode, ip: bool, codes: seq<Byte>, s: Scan)
    requires s.pos <= |codes| && (s.padLen > 0 ==> s.padStart < s.pos && !ip)
    ensures var r := ScanFrom(parse, ip, codes, s); r.padLen > 0 ==> r.padStart < r.pos && !ip
    decreases |codes| - s.pos
  {
    if |s.sextets| >= 4 || s.pos >= |codes| {
    } else {
      var step := Decide(parse, ip, codes[s.pos], |s.sextets|, s.padLen);
      if step != Stop { PadsOfScan(parse, ip, codes, Advance(s, step, codes[s.pos])); }
    }
  }

  /** A lone sextet without unused bits is the letter A. */
  lemma {:induction false} LoneSextet(ch: Byte)
    ensures DecodeTable(ch) < 64 && Byte0(DecodeTable(ch), 0) == 0 <==> ch == 65
  {
  }

  /** The data characters of an incomplete quantum without unused bits. */
  lemma {:induction false} ShortGroup(data: seq<Byte>, pos: nat, q: seq<Byte>)
    requires 2 <= |q| <= 3 && pos + |q| == |data| && UnusedBits(q) == 0
    requires Base64Modes.At(Codes(data), pos, q) && Base64Modes.AreSextets(q)
    ensures data[pos..] == Unpadded(BytesOf(q))
  {
    var d := BytesOf(q);
    Base64Modes.CanonicalSextets(q);
    Base64Modes.GroupDecodes(d);
    UnpaddedShort(d);
    var g := Group(d);
    forall i | 0 <= i < |q| ensures data[pos..][i] == g[i] {
      assert Codes(g)[i] == q[i] && Codes(data)[pos + i] == q[i];
      Base64Modes.SameChar(data[pos + i], g[i], q[i]);
    }
  }

  /** The last quantum of a successful strict decoding. */
  lemma {:induction false} LastAccepted(pad: PadMode, data: seq<Byte>, pos: nat, s: Scan)
    requires pos < |data| && Base64Modes.Clean(Codes(data), pos, s) && |s.sextets| < 4
    requires s.padLen > 0 ==> s.padStart < s.pos && pad != PadNo
    requires Acceptable(Flags(ParseStrict, pad, TermBuffer), Finish(s)) && Finish(s).pos == |data|
    ensures Accepted(pad, data[pos..], BytesOf(s.sextets))
  {
    var q := s.sextets;
    if |q| + s.padLen == 4 {
      Base64Modes.CleanQuantumIsGroup(data, pos, s);
      Base64Modes.EncodeGroup(BytesOf(q), []);
      assert BytesOf(q) + [] == BytesOf(q) && data[pos..] == data[pos..pos + 4];
      assert Group(BytesOf(q)) + Encode([]) == Group(BytesOf(q));
    } else if |q| == 1 {
      assert Codes(data)[pos + 0] == q[0];
      LoneSextet(data[pos]);
      assert data[pos..] == [65] && Encode([]) + [65] == [65];
    } else {
      ShortGroup(data, pos, q);
    }
  }

  lemma {:induction false} StrictStep(pad: PadMode, codes: seq<Byte>, pos: nat, s: Scan)
    requires pos < |codes| && DecodeFrom(Flags(ParseStrict, pad, TermBuffer), codes, pos).success
    requires s == ScanFrom(ParseStrict, pad == PadNo, codes, Scan(pos, [], 0, 0)) && Base64Modes.Clean(codes, pos, s)
    ensures var flags := Flags(ParseStrict, pad, TermBuffer);
      if |s.sextets| < 4 then
        Acceptable(flags, Finish(s)) && Finish(s).pos == |codes|
        && DecodeFrom(flags, codes, pos).bytes == BytesOf(s.sextets)
      else s.pos == pos + 4 && s.padLen == 0 && UnusedBits(s.sextets) == 0
           && DecodeFrom(flags, codes, pos) == Prepend(BytesOf(s.sextets), DecodeFrom(flags, codes, pos + 4))
  {
  }

  lemma {:induction false} FullAccepted(pad: PadMode, data: seq<Byte>, pos: nat, s: Scan, rest: seq<Byte>)
    requires Base64Modes.Clean(Codes(data), pos, s) && |s.sextets| == 4 && s.padLen == 0
    requires UnusedBits(s.sextets) == 0 && pos + 4 <= |data| && Accepted(pad, data[pos + 4..], rest)
    ensures Accepted(pad, data[pos..], BytesOf(s.sextets) + rest)
  {
    Base64Modes.CleanQuantumIsGroup(data, pos, s);
    assert data[pos..] == data[pos..pos + 4] + data[pos + 4..];
    AcceptedJoins(pad, BytesOf(s.sextets), data[pos + 4..], rest);
  }

  lemma {:induction false} StrictScan(pad: PadMode, codes: seq<Byte>, pos: nat, s: Scan)
    requires Base64Modes.AreCodes(codes) && pos < |codes|
    requires DecodeFrom(Flags(ParseStrict, pad, TermBuffer), codes, pos).success
    requires s == ScanFrom(ParseStrict, pad == PadNo, codes, Scan(pos, [], 0, 0))
    ensures Base64Modes.Clean(codes, pos, s) && (s.padLen > 0 ==> s.padStart < s.pos && pad != PadNo)
    ensures |s.sextets| <= 4
  {
    Base64Modes.StrictScanIsClean(pad == PadNo, codes, pos, Scan(pos, [], 0, 0));
    PadsOfScan(ParseStrict, pad == PadNo, codes, Scan(pos, [], 0, 0));
  }

  lemma {:induction false} StrictIsAccepted(pad: PadMode, data: seq<Byte>, codes: seq<Byte>, pos: nat)
    requires codes == Codes(data) && Base64Modes.AreCodes(codes) && pos <= |data|
    requires DecodeFrom(Flags(ParseStrict, pad, TermBuffer), codes, pos).success
    ensures Accepted(pad, data[pos..], DecodeFrom(Flags(ParseStrict, pad, TermBuffer), codes, pos).bytes)
    decreases |data| - pos
  {
    if pos == |data| {
      NothingAccepted(pad, data[pos..]);
    } else {
      var s := ScanFrom(ParseStrict, pad == PadNo, codes, Scan(pos, [], 0, 0));
      StrictScan(pad, codes, pos, s);
      StrictStep(pad, codes, pos, s);
      if |s.sextets| < 4 {
        LastAccepted(pad, data, pos, s);
      } else {
        StrictIsAccepted(pad, data, codes, pos + 4);
        FullAccepted(pad, data, pos, s, DecodeFrom(Flags(ParseStrict, pad, TermBuffer), codes, pos + 4).bytes);
      }
    }
  }

  lemma {:induction false} NothingAccepted(pad: PadMode, s: seq<Byte>)
    requires s == []
    ensures Accepted(pad, s, [])
  {
    UnpaddedShort([]);
  }

  // ---------------------------------------------------------------- the converse

  /** An incomplete quantum without pads and unused bits ends the text. */
  lemma {:induction false} DecodeShort(pad: PadMode, codes: seq<Byte>, pos: nat, q: seq<Byte>)
    requires 1 <= |q| <= 3 && pos + |q| == |codes| && Base64Modes.At(codes, pos, q) && Base64Modes.AreSextets(q)
    requires pad != PadYes && UnusedBits(q) == 0
    ensures DecodeFrom(Flags(ParseStrict, pad, TermBuffer), codes, pos) == Decoded(true, BytesOf(q), |codes|)
  {
    Base64Modes.ScanTakes(ParseStrict, pad == PadNo, codes, pos, q, 0);
    assert q[..0] == [];
  }

  lemma {:induction false} ShortDecodes(pad: PadMode, codes: seq<Byte>, pos: nat, d: seq<Byte>, tail: seq<Byte>)
    requires |d| < 3 && (tail == [] || (tail == [65] && d == [])) && pad != PadYes
    requires pos <= |codes| && codes[pos..] == Codes(Unpadded(d) + tail)
    ensures DecodeFrom(Flags(ParseStrict, pad, TermBuffer), codes, pos) == Decoded(true, d, |codes|)
  {
    UnpaddedShort(d);
    if d != [] {
      Base64Modes.GroupDecodes(d);
      var q := Base64Modes.SextetsOf(d);
      assert Unpadded(d) + tail == Group(d)[..|q|];
      assert codes[pos..] == Codes(Group(d))[..|q|] == q;
      Base64Modes.SplitAt(codes, pos, q, []);
      DecodeShort(pad, codes, pos, q);
    } else if tail == [65] {
      LoneSextet(65);
      assert Unpadded(d) + tail == tail && codes[pos..] == [0];
      Base64Modes.SplitAt(codes, pos, [0], []);
      DecodeShort(pad, codes, pos, [0]);
    }
  }

  lemma {:induction false} UnpaddedDecodes(pad: PadMode, codes: seq<Byte>, pos: nat, d: seq<Byte>, tail: seq<Byte>)
    requires (tail == [] || (tail == [65] && |d| % 3 == 0)) && pad != PadYes
    requires pos <= |codes| && codes[pos..] == Codes(Unpadded(d) + tail)
    ensures DecodeFrom(Flags(ParseStrict, pad, TermBuffer), codes, pos) == Decoded(true, d, |codes|)
    decreases |d|
  {
    if |d| < 3 {
      ShortDecodes(pad, codes, pos, d, tail);
    } else {
      var g, t := d[..3], d[3..];
      FirstThree(d, g, t);
      UnpaddedGroup(d, g, t, tail);
      Base64Modes.DecodeGroup(Flags(ParseStrict, pad, TermBuffer), codes, pos, g, Codes(Unpadded(t) + tail));
      UnpaddedDecodes(pad, codes, pos + 4, t, tail);
    }
  }

  lemma {:induction false} FirstThree(d: seq<Byte>, g: seq<Byte>, t: seq<Byte>)
    requires |d| >= 3 && g == d[..3] && t == d[3..]
    ensures d == g + t && |d| % 3 == |t| % 3
  {
  }

  lemma {:induction false} UnpaddedGroup(d: seq<Byte>, g: seq<Byte>, t: seq<Byte>, tail: seq<Byte>)
    requires |g| == 3 && d == g + t
    ensures Codes(Unpadded(d) + tail) == Codes(Group(g)) + Codes(Unpadded(t) + tail)
  {
    UnpaddedStep(g, t);
    CodesOfJoined(Group(g), Unpadded(t), tail);
  }

  lemma {:induction false} CodesOfJoined(g: seq<Byte>, s: seq<Byte>, tail: seq<Byte>)
    ensures Codes(g + s + tail) == Codes(g) + Codes(s + tail)
  {
    Regroup(g, s, tail);
    Base64Modes.CodesConcat(g, s + tail);
  }

  lemma {:induction false} AcceptedDecodes(pad: PadMode, s: seq<Byte>, d: seq<Byte>)
    requires Accepted(pad, s, d)
    ensures Decode(s, Flags(ParseStrict, pad, TermBuffer)) == Decoded(true, d, |s|)
  {
    assert Codes(s)[0..] == Codes(s);
    if s == Encode(d) && pad != PadNo {
      Base64Modes.EncodedDecodes(Flags(ParseStrict, pad, TermBuffer), Codes(s), 0, d);
    } else if s == Unpadded(d) {
      assert Unpadded(d) + [] == Unpadded(d);
      UnpaddedDecodes(pad, Codes(s), 0, d, []);
    } else {
      assert Unpadded(d) == Encode(d);
      UnpaddedDecodes(pad, Codes(s), 0, d, [65]);
    }
  }

  /** In every pad mode the strict parser accepts exactly these texts up to the end of the buffer. */
  lemma {:induction false} PadModesAcceptExactly(pad: PadMode, s: seq<Byte>, d: seq<Byte>)
    ensures var r := Decode(s, Flags(ParseStrict, pad, TermBuffer));
      r.success && r.bytes == d
      <==> (s == Encode(d) && pad != PadNo)
           || (s == Encode(d)[..(4 * |d| + 2) / 3] && pad != PadYes)
           || (s == Encode(d) + [65] && |d| % 3 == 0 && pad != PadYes)
  {
    if Decode(s, Flags(ParseStrict, pad, TermBuffer)).success {
      assert s[0..] == s;
      Base64Modes.CodesAreCodes(s);
      StrictIsAccepted(pad, s, Codes(s), 0);
    }
    if Accepted(pad, s, d) { AcceptedDecodes(pad, s, d); }
  }

  /** The letter A is the encoding of no data, with or without pads, and still accepted. */
  lemma {:induction false} LoneLetterIsAccepted(s: seq<Byte>, d: seq<Byte>)
    requires s == [65]
    ensures Decode(s, Flags(ParseStrict, PadAny, TermBuffer)).success
    ensures s != Encode(d) && s != Encode(d)[..(4 * |d| + 2) / 3]
  {
    UnpaddedShort([]);
    assert Encode([]) + [65] == s;
    PadModesAcceptExactly(PadAny, s, []);
  }

  // ---------------------------------------------------------------- termination modes

  /** Where the decoder may end changes what it reports, never what it decodes. */
  lemma {:induction false} TermModesFrom(parse: ParseMode, pad: PadMode, codes: seq<Byte>, pos: nat)
    requires pos <= |codes|
    ensures var b, c := DecodeFrom(Flags(parse, pad, TermBuffer), codes, pos),
                        DecodeFrom(Flags(parse, pad, TermChar), codes, pos);
      && b.bytes == c.bytes && b.used == c.used && (b.success <==> c.success && c.used == |codes|)
    ensures var c, a := DecodeFrom(Flags(parse, pad, TermChar), codes, pos),
                        DecodeFrom(Flags(parse, pad, TermAny), codes, pos);
      && a.bytes == c.bytes && a.used == c.used && (c.success ==> a.success) && (pad != PadYes ==> a.success)
    decreases |codes| - pos
  {
    if pos < |codes| {
      var s := ScanFrom(parse, pad == PadNo, codes, Scan(pos, [], 0, 0));
      if |s.sextets| >= 4 { TermModesFrom(parse, pad, codes, s.pos); }
    }
  }

  lemma {:induction false} TermModes(s: seq<Byte>, parse: ParseMode, pad: PadMode)
    ensures var b, c := Decode(s, Flags(parse, pad, TermBuffer)), Decode(s, Flags(parse, pad, TermChar));
      && b.bytes == c.bytes && b.used == c.used && (b.success <==> c.success && c.used == |s|)
    ensures var c, a := Decode(s, Flags(parse, pad, TermChar)), Decode(s, Flags(parse, pad, TermAny));
      && a.bytes == c.bytes && a.used == c.used && (c.success ==> a.success) && (pad != PadYes ==> a.success)
  {
    TermModesFrom(parse, pad, Codes(s), 0);
  }
}
