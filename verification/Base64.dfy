/** Base64 of base64.cc (section 4 of RFC 4648): the encoder, the flag-driven decoder, and what each
    decoding mode accepts. Text and data are sequences of unsigned 8-bit characters. */
module Base64 {

  type Byte = bv8

  datatype ParseMode = ParseStrict | ParseWhite | ParseAny
  datatype PadMode = PadYes | PadAny | PadNo
  datatype TermMode = TermBuffer | TermChar | TermAny
  datatype Flags = Flags(parse: ParseMode, pad: PadMode, term: TermMode)

  const STRICT: Flags := Flags(ParseStrict, PadYes, TermBuffer)

  const PAD_CHAR: Byte := 61
  const PD: Byte := 0xFD
  const SP: Byte := 0xFE
  const IL: Byte := 0xFF

  /** The 64 characters A-Z a-z 0-9 + / by index. */
  function EncodeChar(c: Byte): Byte
    requires c < 64
  {
    if c < 26 then c + 65
    else if c < 52 then c + 71
    else if c < 62 then c - 4
    else if c == 62 then 43
    else 47
  }

  /** The decode table: an index, or a mark for pad, white space and illegal characters. */
  function DecodeTable(ch: Byte): Byte {
    if 65 <= ch <= 90 then ch - 65
    else if 97 <= ch <= 122 then ch - 71
    else if 48 <= ch <= 57 then ch + 4
    else if ch == 43 then 62
    else if ch == 47 then 63
    else if ch == PAD_CHAR then PD
    else if 9 <= ch <= 13 || ch == 32 then SP
    else IL
  }

  predicate IsAlphabet(ch: Byte) { DecodeTable(ch) < 64 }

  /** A text looked up in the decode table; the decoder sees nothing else of it. */
  function Codes(data: seq<Byte>): (codes: seq<Byte>)
    ensures |codes| == |data| && forall i :: 0 <= i < |data| ==> codes[i] == DecodeTable(data[i])
  {
    seq(|data|, i requires 0 <= i < |data| => DecodeTable(data[i]))
  }

  lemma {:induction false} TablesAreInverse(c: Byte, ch: Byte)
    ensures c < 64 ==> DecodeTable(EncodeChar(c)) == c
    ensures IsAlphabet(ch) ==> EncodeChar(DecodeTable(ch)) == ch
    ensures DecodeTable(ch) == PD <==> ch == PAD_CHAR
    ensures DecodeTable(ch) < 64 || DecodeTable(ch) in {PD, SP, IL}
  {
  }

  // ---------------------------------------------------------------- three bytes, four sextets

  function Sextet0(a: Byte): (r: Byte) ensures r < 64 { (a >> 2) & 0x3f }
  function Sextet1(a: Byte, b: Byte): (r: Byte) ensures r < 64 { ((a << 4) & 0x3f) | ((b >> 4) & 0x0f) }
  function Sextet2(b: Byte, c: Byte): (r: Byte) ensures r < 64 { ((b << 2) & 0x3f) | ((c >> 6) & 0x03) }
  function Sextet3(c: Byte): (r: Byte) ensures r < 64 { c & 0x3f }

  function Byte0(q0: Byte, q1: Byte): Byte { (q0 << 2) | ((q1 >> 4) & 0x3) }
  function Byte1(q1: Byte, q2: Byte): Byte { ((q1 << 4) & 0xf0) | ((q2 >> 2) & 0xf) }
  function Byte2(q2: Byte, q3: Byte): Byte { ((q2 << 6) & 0xc0) | q3 }

  lemma {:induction false} PackedBytes(a: Byte, b: Byte, c: Byte)
    ensures Byte0(Sextet0(a), Sextet1(a, b)) == a
    ensures Byte1(Sextet1(a, b), Sextet2(b, c)) == b
    ensures Byte2(Sextet2(b, c), Sextet3(c)) == c
  {
  }

  lemma {:induction false} PackedSextets(p: Byte, q: Byte, r: Byte, s: Byte)
    requires p < 64 && q < 64 && r < 64 && s < 64
    ensures Sextet0(Byte0(p, q)) == p
    ensures Sextet1(Byte0(p, q), Byte1(q, r)) == q
    ensures Sextet2(Byte1(q, r), Byte2(r, s)) == r
    ensures Sextet3(Byte2(r, s)) == s
  {
  }

  // ---------------------------------------------------------------- the encoder

  /** One to three bytes as four characters, padded. */
  function Group(d: seq<Byte>): (s: seq<Byte>)
    requires 1 <= |d| <= 3
    ensures |s| == 4
  {
    if |d| == 1 then
      [EncodeChar(Sextet0(d[0])), EncodeChar(Sextet1(d[0], 0)), PAD_CHAR, PAD_CHAR]
    else if |d| == 2 then
      [EncodeChar(Sextet0(d[0])), EncodeChar(Sextet1(d[0], d[1])), EncodeChar(Sextet2(d[1], 0)), PAD_CHAR]
    else
      [EncodeChar(Sextet0(d[0])), EncodeChar(Sextet1(d[0], d[1])), EncodeChar(Sextet2(d[1], d[2])),
       EncodeChar(Sextet3(d[2]))]
  }

  function Min3(n: nat): nat { if n < 3 then n else 3 }

  /** RFC 4648: three bytes to four characters; one or two left-over bytes are padded. */
  function Encode(d: seq<Byte>): (s: seq<Byte>)
    ensures |s| == (|d| + 2) / 3 * 4
  {
    if d == [] then [] else Group(d[..Min3(|d|)]) + Encode(d[Min3(|d|)..])
  }

  method EncodeFromArray(data: array<Byte>) returns (result: array<Byte>)
    ensures fresh(result) && result[..] == Encode(data[..])
  {
    var len := data.Length;
    result := new Byte[(len + 2) / 3 * 4](i => 0);
    var i, dest := 0, 0;
    ghost var d := data[..];
    NothingDone(d, result[..dest]);
    while i < len
      invariant 0 <= i <= len && 0 <= dest <= result.Length
      invariant d == data[..] && Pending(d, i, result[..dest], result.Length)
    {
      i := EncodeNext(data, i, result, dest);
      dest := dest + 4;
    }
    AllDone(d, result[..dest], result.Length);
    assert result[..result.Length] == result[..];
  }

  method EncodeNext(data: array<Byte>, start: nat, result: array<Byte>, dest: nat) returns (i: nat)
    requires start < data.Length && dest <= result.Length && result != data
    requires Pending(data[..], start, result[..dest], result.Length)
    modifies result
    ensures start < i <= data.Length && dest + 4 <= result.Length
    ensures Pending(data[..], i, result[..dest + 4], result.Length)
  {
    ghost var next := start + Min3(data.Length - start);
    NextGroup(data[..], result[..dest], start, next, result.Length);
    assert data[..][start..next] == data[start..next];
    i := EncodeQuantum(data, start, result, dest);
  }

  /** What is written so far, followed by the encoding of the rest, is the encoding; it just fits. */
  predicate Pending(d: seq<Byte>, i: nat, done: seq<Byte>, size: nat) {
    i <= |d| && done + Encode(d[i..]) == Encode(d) && |done| + |Encode(d[i..])| == size
  }

  lemma {:induction false} NothingDone(d: seq<Byte>, done: seq<Byte>)
    requires done == []
    ensures Pending(d, 0, done, |Encode(d)|)
  {
    assert d[0..] == d && [] + Encode(d) == Encode(d);
  }

  lemma {:induction false} AllDone(d: seq<Byte>, done: seq<Byte>, size: nat)
    requires Pending(d, |d|, done, size)
    ensures done == Encode(d) && |done| == size
  {
    assert Encode(d[|d|..]) == [] && done + [] == done;
  }

  lemma {:induction false} NextGroup(d: seq<Byte>, done: seq<Byte>, i: nat, next: nat, size: nat)
    requires i < |d| && next == i + Min3(|d| - i) && Pending(d, i, done, size)
    ensures |done| + 4 <= size && Pending(d, next, done + Group(d[i..next]), size)
  {
    GroupSlice(d, i, next - i);
    Regroup(done, Group(d[i..next]), Encode(d[next..]));
  }

  lemma {:induction false} Regroup(a: seq<Byte>, b: seq<Byte>, c: seq<Byte>)
    ensures a + (b + c) == (a + b) + c
  {
  }

  lemma {:induction false} GroupSlice(d: seq<Byte>, i: nat, n: nat)
    requires i < |d| && n == Min3(|d| - i)
    ensures Encode(d[i..]) == Group(d[i..i + n]) + Encode(d[i + n..])
  {
    assert d[i..][..n] == d[i..i + n] && d[i..][n..] == d[i + n..];
  }

  /** The body of the encoder's loop, lines 109 to 134. */
  method EncodeQuantum(data: array<Byte>, start: nat, result: array<Byte>, dest: nat) returns (i: nat)
    requires start < data.Length && dest + 4 <= result.Length && result != data
    modifies result
    ensures i == start + Min3(data.Length - start)
    ensures result[..dest + 4] == old(result[..dest]) + Group(data[start..i])
  {
    var len := data.Length;
    i := start;
    ghost var d := data[start..start + Min3(len - start)];
    assert d[0] == data[start];
    var c := (data[i] >> 2) & 0x3f;
    assert c == Sextet0(d[0]);
    result[dest] := EncodeChar(c);
    c := (data[i] << 4) & 0x3f;
    i := i + 1;
    if i < len {
      c := c | ((data[i] >> 4) & 0x0f);
    }
    assert c == Sextet1(d[0], if |d| > 1 then d[1] else 0);
    result[dest + 1] := EncodeChar(c);
    if i < len {
      c := (data[i] << 2) & 0x3f;
      i := i + 1;
      if i < len {
        c := c | ((data[i] >> 6) & 0x03);
      }
      assert c == Sextet2(d[1], if |d| > 2 then d[2] else 0);
      result[dest + 2] := EncodeChar(c);
    } else {
      result[dest + 2] := PAD_CHAR;
    }
    if i < len {
      c := data[i] & 0x3f;
      assert c == Sextet3(d[2]);
      result[dest + 3] := EncodeChar(c);
      i := i + 1;
    } else {
      result[dest + 3] := PAD_CHAR;
    }
    FourMore(old(result[..]), result[..], dest, Group(d));
  }

  lemma {:induction false} FourMore(before: seq<Byte>, after: seq<Byte>, dest: nat, g: seq<Byte>)
    requires |before| == |after| && |g| == 4 && dest + 4 <= |after|
    requires forall i :: 0 <= i < dest ==> after[i] == before[i]
    requires after[dest] == g[0] && after[dest + 1] == g[1] && after[dest + 2] == g[2] && after[dest + 3] == g[3]
    ensures after[..dest + 4] == before[..dest] + g
  {
    assert after[..dest + 4] == after[..dest] + [after[dest], after[dest + 1], after[dest + 2], after[dest + 3]];
    assert after[..dest] == before[..dest];
  }

  // ---------------------------------------------------------------- one quantum

  /** What GetNextQuantum has gathered: the sextets so far and the pads behind them. */
  datatype Scan = Scan(pos: nat, sextets: seq<Byte>, padLen: nat, padStart: nat)

  datatype Step = Stop | Skip | Pad | Take

  /** The decision on the next character, lines 145 to 175. */
  function Decide(parse: ParseMode, illegalPads: bool, v: Byte, byteLen: nat, padLen: nat): Step {
    if v == IL || (illegalPads && v == PD) then (if parse != ParseAny then Stop else Skip)
    else if v == SP then (if parse == ParseStrict then Stop else Skip)
    else if v == PD then
      if byteLen < 2 || byteLen + padLen >= 4 then (if parse != ParseAny then Stop else Skip)
      else Pad
    else if padLen > 0 && parse != ParseAny then Stop
    else Take
  }

  function Advance(s: Scan, step: Step, v: Byte): Scan
    requires step != Stop
  {
    match step
    case Skip => s.(pos := s.pos + 1)
    case Pad => s.(pos := s.pos + 1, padLen := s.padLen + 1, padStart := if s.padLen == 0 then s.pos else s.padStart)
    case Take => s.(pos := s.pos + 1, sextets := s.sextets + [v], padLen := 0)
  }

  function ScanFrom(parse: ParseMode, illegalPads: bool, codes: seq<Byte>, s: Scan): (r: Scan)
    requires s.pos <= |codes|
    ensures s.pos <= r.pos <= |codes| && |r.sextets| <= |s.sextets| + (r.pos - s.pos)
    ensures |s.sextets| <= 4 ==> |r.sextets| <= 4
    ensures (|s.sextets| < 4 || s.padLen == 0) && |r.sextets| >= 4 ==> r.padLen == 0
    ensures (s.padLen > 0 ==> s.padStart <= s.pos) && r.padLen > 0 ==> r.padStart <= r.pos
    decreases |codes| - s.pos
  {
    if |s.sextets| >= 4 || s.pos >= |codes| then s
    else
      var v := codes[s.pos];
      var step := Decide(parse, illegalPads, v, |s.sextets|, s.padLen);
      if step == Stop then s else ScanFrom(parse, illegalPads, codes, Advance(s, step, v))
  }

  datatype Quantum = Quantum(sextets: seq<Byte>, padded: bool, pos: nat)

  /** An incomplete pad is rolled back. */
  function Finish(s: Scan): Quantum {
    var padded := |s.sextets| + s.padLen == 4;
    Quantum(s.sextets, padded, if !padded && s.padLen > 0 then s.padStart else s.pos)
  }

  function NextQuantum(parse: ParseMode, illegalPads: bool, codes: seq<Byte>, pos: nat): Quantum
    requires pos <= |codes|
  {
    Finish(ScanFrom(parse, illegalPads, codes, Scan(pos, [], 0, 0)))
  }

  /** The same quantum by the loop over qbuf. */
  method GetNextQuantum(parse: ParseMode, illegalPads: bool, data: seq<Byte>, start: nat, qbuf: array<Byte>)
    returns (byteLen: nat, dpos: nat, padded: bool)
    requires start <= |data| && qbuf.Length == 4
    modifies qbuf
    ensures byteLen <= 4 && dpos <= |data| && (byteLen == 4 ==> dpos >= start + 4)
    ensures Quantum(qbuf[..byteLen], padded, dpos) == NextQuantum(parse, illegalPads, Codes(data), start)
    ensures forall i :: byteLen <= i < 4 ==> qbuf[i] == 0
  {
    var padLen, padStart;
    byteLen, dpos, padLen, padStart := ScanLoop(parse, illegalPads, data, start, qbuf);
    ghost var gathered := qbuf[..byteLen];
    for i := byteLen to 4
      invariant qbuf[..byteLen] == gathered && forall k :: byteLen <= k < i ==> qbuf[k] == 0
    {
      qbuf[i] := 0;
    }
    if byteLen + padLen == 4 {
      padded := true;
    } else {
      padded := false;
      if padLen > 0 {
        dpos := padStart;
      }
    }
  }

  /** The first loop of GetNextQuantum, lines 143 to 176. */
  method ScanLoop(parse: ParseMode, illegalPads: bool, data: seq<Byte>, start: nat, qbuf: array<Byte>)
    returns (byteLen: nat, dpos: nat, padLen: nat, padStart: nat)
    requires start <= |data| && qbuf.Length == 4
    modifies qbuf
    ensures byteLen <= 4
    ensures Scan(dpos, qbuf[..byteLen], padLen, padStart)
         == ScanFrom(parse, illegalPads, Codes(data), Scan(start, [], 0, 0))
  {
    dpos, byteLen, padLen, padStart := start, 0, 0, 0;
    ghost var goal, s := ScanFrom(parse, illegalPads, Codes(data), Scan(start, [], 0, 0)), Scan(start, [], 0, 0);
    while byteLen < 4 && dpos < |data|
      invariant 0 <= byteLen <= 4 && start <= dpos <= |data|
      invariant s == Scan(dpos, qbuf[..byteLen], padLen, padStart)
      invariant ScanFrom(parse, illegalPads, Codes(data), s) == goal
      decreases |data| - dpos
    {
      var v := DecodeTable(data[dpos]);
      qbuf[byteLen] := v;
      assert qbuf[..byteLen] == s.sextets && qbuf[..byteLen + 1] == s.sextets + [v];
      var stop;
      stop, byteLen, padLen, padStart := ScanBody(parse, illegalPads, v, dpos, byteLen, padLen, padStart, s);
      if stop {
        break;
      }
      s := Advance(s, Decide(parse, illegalPads, v, |s.sextets|, s.padLen), v);
      dpos := dpos + 1;
    }
  }

  /** The body of that loop; stop stands for its break. */
  method ScanBody(parse: ParseMode, illegalPads: bool, v: Byte, dpos: nat, byteLen0: nat, padLen0: nat,
                  padStart0: nat, ghost s: Scan)
    returns (stop: bool, byteLen: nat, padLen: nat, padStart: nat)
    requires s.pos == dpos && |s.sextets| == byteLen0 && s.padLen == padLen0 && s.padStart == padStart0
    ensures stop <==> Decide(parse, illegalPads, v, byteLen0, padLen0) == Stop
    ensures stop ==> byteLen == byteLen0 && padLen == padLen0 && padStart == padStart0
    ensures !stop ==>
      var t := Advance(s, Decide(parse, illegalPads, v, byteLen0, padLen0), v);
      t == Scan(dpos + 1, if byteLen == byteLen0 then s.sextets else s.sextets + [v], padLen, padStart)
      && byteLen == |t.sextets|
  {
    stop, byteLen, padLen, padStart := false, byteLen0, padLen0, padStart0;
    if v == IL || (illegalPads && v == PD) {
      stop := parse != ParseAny;
    } else if v == SP {
      stop := parse == ParseStrict;
    } else if v == PD {
      if byteLen < 2 {
        stop := parse != ParseAny;
      } else if byteLen + padLen >= 4 {
        stop := parse != ParseAny;
      } else {
        padLen := padLen + 1;
        if padLen == 1 {
          padStart := dpos;
        }
      }
    } else {
      if padLen > 0 {
        if parse != ParseAny {
          stop := true;
          return;
        }
        padLen := 0;
      }
      byteLen := byteLen + 1;
    }
  }

  // ---------------------------------------------------------------- the decoder

  /** The bytes that n <= 4 sextets yield. */
  function BytesOf(q: seq<Byte>): seq<Byte> {
    if |q| < 2 then []
    else if |q| == 2 then [Byte0(q[0], q[1])]
    else if |q| == 3 then [Byte0(q[0], q[1]), Byte1(q[1], q[2])]
    else [Byte0(q[0], q[1]), Byte1(q[1], q[2]), Byte2(q[2], q[3])]
  }

  /** The bits of an incomplete quantum that no byte took. */
  function UnusedBits(q: seq<Byte>): Byte {
    if |q| == 0 then 0
    else if |q| == 1 then Byte0(q[0], 0)
    else if |q| == 2 then Byte1(q[1], 0)
    else if |q| == 3 then Byte2(q[2], 0)
    else 0
  }

  datatype Decoded = Decoded(success: bool, bytes: seq<Byte>, used: nat)

  predicate Acceptable(flags: Flags, q: Quantum) {
    && (flags.term == TermAny || UnusedBits(q.sextets) == 0)
    && (flags.pad == PadYes ==> q.padded)
  }

  function DecodeFrom(flags: Flags, codes: seq<Byte>, pos: nat): Decoded
    requires pos <= |codes|
    decreases |codes| - pos
  {
    if pos >= |codes| then Decoded(true, [], pos)
    else
      var s := ScanFrom(flags.parse, flags.pad == PadNo, codes, Scan(pos, [], 0, 0));
      var q := Finish(s);
      if |q.sextets| < 4 then
        Decoded(Acceptable(flags, q) && (flags.term == TermBuffer ==> q.pos == |codes|), BytesOf(q.sextets), q.pos)
      else
        var rest := DecodeFrom(flags, codes, s.pos);
        rest.(bytes := BytesOf(q.sextets) + rest.bytes)
  }

  function Decode(data: seq<Byte>, flags: Flags): Decoded { DecodeFrom(flags, Codes(data), 0) }

  /** The same by the loop of DecodeFromArrayTemplate. */
  method DecodeFromArray(data: seq<Byte>, flags: Flags) returns (success: bool, result: seq<Byte>, dataUsed: nat)
    ensures Decoded(success, result, dataUsed) == Decode(data, flags)
  {
    result := [];
    var dpos := 0;
    success := true;
    var qbuf := new Byte[4](i => 0);
    ghost var codes := Codes(data);
    ghost var goal := Decode(data, flags);
    assert [] + goal.bytes == goal.bytes;
    while dpos < |data|
      invariant success && 0 <= dpos <= |data|
      invariant Prepend(result, DecodeFrom(flags, codes, dpos)) == goal
      decreases |data| - dpos
    {
      var bytes, next, last, acceptable := DecodeQuantum(data, flags, dpos, qbuf);
      PrependTwice(result, bytes, if last then Decoded(true, [], 0) else DecodeFrom(flags, codes, next));
      result := result + bytes;
      dpos := next;
      if last {
        success := acceptable;
        break;
      }
    }
    if flags.term == TermBuffer && dpos != |data| {
      success := false;
    }
    dataUsed := dpos;
  }

  /** The body of the decoder's loop, lines 226 to 249. */
  method DecodeQuantum(data: seq<Byte>, flags: Flags, dpos: nat, qbuf: array<Byte>)
    returns (bytes: seq<Byte>, next: nat, last: bool, acceptable: bool)
    requires dpos < |data| && qbuf.Length == 4
    modifies qbuf
    ensures next <= |data| && (!last ==> next > dpos)
    ensures !last ==>
      DecodeFrom(flags, Codes(data), dpos) == Prepend(bytes, DecodeFrom(flags, Codes(data), next))
    ensures last ==>
      DecodeFrom(flags, Codes(data), dpos)
        == Decoded(acceptable && (flags.term == TermBuffer ==> next == |data|), bytes, next)
  {
    var qlen, padded;
    qlen, next, padded := GetNextQuantum(flags.parse, flags.pad == PadNo, data, dpos, qbuf);
    ghost var q := Quantum(qbuf[..qlen], padded, next);
    DecodeStep(flags, Codes(data), dpos, q);
    var c;
    bytes, c := TakeBytes(qbuf[0], qbuf[1], qbuf[2], qbuf[3], qlen);
    TakenBytes(q.sextets, qbuf[0], qbuf[1], qbuf[2], qbuf[3]);
    last, acceptable := qlen < 4, true;
    if last {
      if flags.term != TermAny && c != 0 {
        acceptable := false;
      }
      if flags.pad == PadYes && !padded {
        acceptable := false;
      }
    }
  }

  function Prepend(front: seq<Byte>, d: Decoded): Decoded { d.(bytes := front + d.bytes) }

  lemma {:induction false} PrependTwice(a: seq<Byte>, b: seq<Byte>, d: Decoded)
    ensures Prepend(a, Prepend(b, d)) == Prepend(a + b, d)
  {
    assert a + (b + d.bytes) == (a + b) + d.bytes;
  }

  lemma {:induction false} DecodeStep(flags: Flags, codes: seq<Byte>, pos: nat, q: Quantum)
    requires pos < |codes| && q == NextQuantum(flags.parse, flags.pad == PadNo, codes, pos)
    ensures q.pos <= |codes| && |q.sextets| <= 4
    ensures DecodeFrom(flags, codes, pos) ==
      if |q.sextets| < 4 then
        Decoded(Acceptable(flags, q) && (flags.term == TermBuffer ==> q.pos == |codes|), BytesOf(q.sextets), q.pos)
      else Prepend(BytesOf(q.sextets), DecodeFrom(flags, codes, q.pos))
  {
  }

  /** The bytes of one quantum and the left-over bits, lines 228 to 240. */
  method TakeBytes(q0: Byte, q1: Byte, q2: Byte, q3: Byte, qlen: nat) returns (bytes: seq<Byte>, c: Byte)
    requires qlen <= 4
    ensures bytes == [Byte0(q0, q1), Byte1(q1, q2), Byte2(q2, q3)][..if qlen < 2 then 0 else qlen - 1]
    ensures c == if qlen < 2 then Byte0(q0, q1) else if qlen == 2 then Byte1(q1, q2)
                 else if qlen == 3 then Byte2(q2, q3) else 0
  {
    bytes := [];
    c := (q0 << 2) | ((q1 >> 4) & 0x3);
    if qlen >= 2 {
      bytes := bytes + [c];
      c := ((q1 << 4) & 0xf0) | ((q2 >> 2) & 0xf);
      if qlen >= 3 {
        bytes := bytes + [c];
        c := ((q2 << 6) & 0xc0) | q3;
        if qlen >= 4 {
          bytes := bytes + [c];
          c := 0;
        }
      }
    }
  }

  lemma {:induction false} TakenBytes(q: seq<Byte>, q0: Byte, q1: Byte, q2: Byte, q3: Byte)
    requires |q| <= 4 && q == [q0, q1, q2, q3][..|q|]
    requires (|q| < 1 ==> q0 == 0) && (|q| < 2 ==> q1 == 0) && (|q| < 3 ==> q2 == 0) && (|q| < 4 ==> q3 == 0)
    ensures BytesOf(q) == [Byte0(q0, q1), Byte1(q1, q2), Byte2(q2, q3)][..if |q| < 2 then 0 else |q| - 1]
    ensures |q| < 2 ==> UnusedBits(q) == Byte0(q0, q1)
    ensures |q| == 2 ==> UnusedBits(q) == Byte1(q1, q2)
    ensures |q| == 3 ==> UnusedBits(q) == Byte2(q2, q3)
  {
  }
}
