/** The wire format of a message with a chunked body (section 4.1 of RFC 7230), and the proof that
    the parser reads it back. */
module HttpWire {
  import opened Common
  import opened HttpMachine

  const CRLF: string := ['\r', '\n']
  const CHUNK_DIGITS: nat := 8

  function HexDigit(d: nat): (c: char)
    requires d < 16
    ensures c == "0123456789abcdef"[d]
  {
    if d < 10 then '0' + d as char else 'a' + (d - 10) as char
  }

  /** n as count hexadecimal digits. */
  function Hex(n: nat, count: nat): (s: string)
    ensures |s| == count
    decreases count, n
  {
    if count == 0 then [] else Hex(n / 16, count - 1) + [HexDigit(n % 16)]
  }

  function Chunk(data: string): string {
    Hex(|data|, CHUNK_DIGITS) + CRLF + data + CRLF
  }

  const LAST_CHUNK: string := ['0', '\r', '\n', '\r', '\n']

  function Chunks(pieces: seq<string>): string {
    if pieces == [] then [] else Chunk(pieces[0]) + Chunks(pieces[1..])
  }

  function HeaderLine(h: Header): string { h.0 + [':', ' '] + h.1 + CRLF }

  function HeaderLines(headers: seq<Header>): string {
    if headers == [] then [] else HeaderLine(headers[0]) + HeaderLines(headers[1..])
  }

  // ---------------------------------------------------------------- numbers

  function Pow16(k: nat): nat { if k == 0 then 1 else 16 * Pow16(k - 1) }

  predicate IsHexDigit(c: char) { DigitValue(c) < 16 }

  lemma {:induction false} HexIsDigits(n: nat, count: nat)
    ensures forall i :: 0 <= i < count ==> IsHexDigit(Hex(n, count)[i]) && !IsSpace(Hex(n, count)[i])
    ensures forall i :: 0 <= i < count ==> Hex(n, count)[i] !in "xX+-\n"
    decreases count
  {
    if count == 0 {
    } else {
      HexIsDigits(n / 16, count - 1);
    }
  }

  lemma {:induction false} HexValue(n: nat, count: nat)
    requires n < Pow16(count)
    ensures Number(Hex(n, count), 16) == n
    decreases count
  {
    if count == 0 {
    } else {
      HexValue(n / 16, count - 1);
      var s := Hex(n, count);
      assert s[..count - 1] == Hex(n / 16, count - 1);
      assert DigitValue(HexDigit(n % 16)) == n % 16;
    }
  }

  lemma {:induction false} DigitRunAll(s: string, base: nat)
    requires forall i :: 0 <= i < |s| ==> DigitValue(s[i]) < base
    ensures DigitRun(s, base) == |s|
  {
    if s == [] {
    } else {
      DigitRunAll(s[1..], base);
    }
  }

  /** strtoul on plain digits, with nothing to skip. */
  lemma {:induction false} PlainNumber(s: string, base: nat)
    requires base == 10 || base == 16
    requires s != [] && forall i :: 0 <= i < |s| ==> DigitValue(s[i]) < base && !IsSpace(s[i])
    requires s[0] !in "+-" && (|s| > 1 ==> s[1] !in "xX")
    ensures StrToUlong(s, base) == (if Number(s, base) > ULONG_MAX then ULONG_MAX else Number(s, base), |s|)
  {
    assert SkipSpaces(s) == 0 && s[0..] == s;
    DigitRunAll(s, base);
    NumberWithoutSkips(s, base);
  }

  lemma {:induction false} NumberWithoutSkips(s: string, base: nat)
    requires base == 10 || base == 16
    requires s != [] && SkipSpaces(s) == 0 && DigitRun(s, base) == |s|
    requires s[0] !in "+-" && (|s| > 1 ==> s[1] !in "xX")
    ensures StrToUlong(s, base) == (if Number(s, base) > ULONG_MAX then ULONG_MAX else Number(s, base), |s|)
  {
    assert s[0] != '+' && s[0] != '-';
    if |s| > 1 { assert s[1] != 'x' && s[1] != 'X'; }
    assert s[0..] == s && s[0..0 + |s|] == s;
  }

  /** What printf writes with %.8x, strtoul reads back in full. */
  lemma {:induction false} HexReadsBack(n: nat, count: nat)
    requires count > 0 && n < Pow16(count) && n <= ULONG_MAX
    ensures StrToUlong(Hex(n, count), 16) == (n, count)
  {
    HexIsDigits(n, count);
    HexValue(n, count);
    PlainNumber(Hex(n, count), 16);
  }

  // ---------------------------------------------------------------- reading chunks back

  lemma {:induction false} TrimCarriageReturn(s: string)
    requires s == [] || !IsSpace(s[|s| - 1])
    ensures TrimRight(s + ['\r']) == s
  {
    assert (s + ['\r'])[..|s|] == s;
  }

  /** A CRLF-terminated line without trailing space reaches ProcessLine as it is. */
  lemma {:induction false} FeedCrLfLine(cb: Callbacks, c: Config, line: string, rest: string)
    requires c.state != ST_DATA && '\n' !in line
    requires line == [] || !IsSpace(line[|line| - 1])
    ensures var (c', r) := ProcessLine(cb, c, line);
      Feed(cb, Running(c, []), line + CRLF + rest) ==
        if r.Complete? then Done(r.error, c'.out, rest) else Feed(cb, Running(c', []), rest)
  {
    var (c', r) := ProcessLine(cb, c, line);
    var l := line + ['\r'];
    assert line + CRLF + rest == l + ['\n'] + rest;
    FeedLine(cb, c, l, rest);
    TrimCarriageReturn(line);
    if r.Complete? {
      FeedDone(cb, r.error, c'.out, [], rest);
      assert [] + rest == rest;
    } else {
      FeedSettled(cb, Running(c', []), rest);
    }
  }

  function BodyAdded(c: Config, data: string, size: Size): Config {
    c.(out := c.out.(body := c.out.body + data), dataSize := size)
  }

  /** One chunk: size line, data, terminator. */
  lemma {:induction false} FeedChunk(cb: Callbacks, c: Config, data: string, rest: string)
    requires c.state == ST_CHUNKSIZE && c.chunked && 1 <= |data| < 0x1_0000_0000
    ensures Feed(cb, Running(c, []), Chunk(data) + rest) == Feed(cb, Running(BodyAdded(c, data, 0), []), rest)
  {
    var n := |data|;
    var hex := Hex(n, CHUNK_DIGITS);
    Pow16Of8();
    HexReadsBack(n, CHUNK_DIGITS);
    HexIsDigits(n, CHUNK_DIGITS);
    var tail := data + (CRLF + rest);
    assert Chunk(data) + rest == hex + CRLF + tail;
    var c1 := c.(dataSize := n, state := ST_DATA);
    assert Feed(cb, Running(c, []), hex + CRLF + tail) == Feed(cb, Running(c1, []), tail) by {
      assert '\n' !in hex;
      FeedCrLfLine(cb, c, hex, tail);
    }
    FeedBody(cb, c1, data, CRLF + rest);
    var c2 := AddBody(c1, data);
    var c3 := c2.(state := ST_CHUNKTERM);
    FeedSettled(cb, Running(c2, []), CRLF + rest);
    FeedCrLfLine(cb, c3, [], rest);
    assert [] + CRLF + rest == CRLF + rest;
  }

  lemma {:induction false} Pow16Of8()
    ensures Pow16(8) == 0x1_0000_0000
  {
    assert Pow16(4) == 0x1_0000;
  }

  lemma {:induction false} ZeroIsRead()
    ensures StrToUlong(['0'], 16) == (0, 1)
  {
    var zero := ['0'];
    assert Number(zero, 16) == 0 by { assert zero[..0] == []; }
    assert zero[0..] == zero && zero[0..1] == zero;
    assert DigitRun(zero, 16) == 1;
  }

  lemma {:induction false} FeedLastChunk(cb: Callbacks, c: Config, rest: string)
    requires c.state == ST_CHUNKSIZE
    ensures Feed(cb, Running(c, []), LAST_CHUNK + rest) == Done(HE_NONE, c.out, rest)
  {
    var zero := ['0'];
    ZeroIsRead();
    assert LAST_CHUNK + rest == zero + CRLF + (CRLF + rest);
    FeedCrLfLine(cb, c, zero, CRLF + rest);
    var c1 := c.(dataSize := 0, state := ST_TRAILERS);
    FeedCrLfLine(cb, c1, [], rest);
    assert [] + CRLF + rest == CRLF + rest;
  }

  predicate ValidPieces(pieces: seq<string>) {
    forall i :: 0 <= i < |pieces| ==> 1 <= |pieces[i]| < 0x1_0000_0000
  }

  lemma {:induction false} FirstChunk(pieces: seq<string>, rest: string, body: string)
    requires pieces != []
    ensures Chunks(pieces) + rest == Chunk(pieces[0]) + (Chunks(pieces[1..]) + rest)
    ensures body + pieces[0] + Concat(pieces[1..]) == body + Concat(pieces)
  {
    Regroup(Chunk(pieces[0]), Chunks(pieces[1..]), rest);
    Regroup(body, pieces[0], Concat(pieces[1..]));
  }

  lemma {:induction false} Regroup(a: string, b: string, c: string)
    ensures (a + b) + c == a + (b + c)
  {
  }

  lemma {:induction false} FeedChunks(cb: Callbacks, c: Config, pieces: seq<string>, rest: string) returns (c': Config)
    requires c.state == ST_CHUNKSIZE && c.chunked && ValidPieces(pieces)
    ensures Feed(cb, Running(c, []), Chunks(pieces) + rest) == Feed(cb, Running(c', []), rest)
    ensures c'.state == ST_CHUNKSIZE && c'.out == c.out.(body := c.out.body + Concat(pieces))
    decreases |pieces|
  {
    if pieces == [] {
      assert Chunks(pieces) + rest == rest && c.out.body + [] == c.out.body;
      c' := c;
    } else {
      FirstChunk(pieces, rest, c.out.body);
      FeedChunk(cb, c, pieces[0], Chunks(pieces[1..]) + rest);
      c' := FeedChunks(cb, BodyAdded(c, pieces[0], 0), pieces[1..], rest);
    }
  }

  /** The chunked coding round trip: whatever non-empty pieces the document was read in, the parser
      delivers exactly the document and stops exactly behind the last chunk. */
  lemma {:induction false} ChunkedBodyReadsBack(cb: Callbacks, c: Config, pieces: seq<string>, rest: string)
    requires c.state == ST_CHUNKSIZE && c.chunked && ValidPieces(pieces)
    ensures Feed(cb, Running(c, []), Chunks(pieces) + (LAST_CHUNK + rest))
         == Done(HE_NONE, c.out.(body := c.out.body + Concat(pieces)), rest)
  {
    var c' := FeedChunks(cb, c, pieces, LAST_CHUNK + rest);
    FeedLastChunk(cb, c', rest);
  }

  // ---------------------------------------------------------------- reading headers back

  /** A header that can be written and read without changing: no colon, NUL or newline in the
      name, no newline in the value and no space around it. */
  predicate Printable(h: Header) {
    && ':' !in h.0 && '\0' !in h.0 && '\n' !in h.0 && '\n' !in h.1
    && (h.1 != [] ==> !IsSpace(h.1[0]) && !IsSpace(h.1[|h.1| - 1]))
  }

  /** The state after a row of headers, if the parser accepts them all. */
  function AfterHeaders(c: Config, headers: seq<Header>): Option<Config>
    decreases |headers|
  {
    if headers == [] then Some(c)
    else match ApplyHeader(c, headers[0])
      case None => None
      case Some(c') => AfterHeaders(AddHeader(c', headers[0]), headers[1..])
  }

  lemma {:induction false} IndexOfFirst(a: string, b: string, x: char)
    requires x !in a && '\0' !in a && x != '\0'
    ensures IndexOf(a + [x] + b, x) == Some(|a|)
    decreases |a|
  {
    var s := a + [x] + b;
    if a == [] {
    } else {
      assert s[1..] == a[1..] + [x] + b && s[0] == a[0];
      IndexOfFirst(a[1..], b, x);
    }
  }

  /** The trimmed text of a header line: the blank behind the colon goes when the value is empty. */
  function HeaderText(h: Header): string {
    if h.1 == [] then h.0 + [':'] else h.0 + [':', ' '] + h.1
  }

  lemma {:induction false} HeaderTextSplits(h: Header)
    requires Printable(h)
    ensures SplitHeader(HeaderText(h)) == Some(h)
  {
    var rest := if h.1 == [] then [] else [' '] + h.1;
    assert HeaderText(h) == h.0 + [':'] + rest;
    IndexOfFirst(h.0, rest, ':');
    var t := HeaderText(h);
    assert t[..|h.0|] == h.0 && t[|h.0| + 1..] == rest;
    if h.1 != [] {
      assert rest[1..] == h.1;
      assert SkipSpaces(h.1) == 0;
      assert SkipSpaces(rest) == 1;
    }
  }

  lemma {:induction false} HeaderLineTrims(h: Header)
    requires Printable(h)
    ensures TrimRight(h.0 + [':', ' '] + h.1 + ['\r']) == HeaderText(h)
  {
    var s := h.0 + [':', ' '] + h.1;
    assert (s + ['\r'])[..|s|] == s;
    if h.1 == [] {
      assert s[..|s| - 1] == h.0 + [':'];
      assert TrimRight(h.0 + [':']) == h.0 + [':'];
    }
  }

  lemma {:induction false} FeedContinuedLine(cb: Callbacks, c: Config, l: string, text: string, c': Config,
                                             rest: string)
    requires c.state != ST_DATA && '\n' !in l && TrimRight(l) == text
    requires ProcessLine(cb, c, text) == (c', Continue)
    ensures Feed(cb, Running(c, []), l + ['\n'] + rest) == Feed(cb, Running(c', []), rest)
  {
    FeedLine(cb, c, l, rest);
    FeedSettled(cb, Running(c', []), rest);
  }

  lemma {:induction false} FeedHeaderLine(cb: Callbacks, c: Config, h: Header, rest: string)
    requires c.state == ST_HEADERS && Printable(h) && ApplyHeader(c, h).Some?
    ensures Feed(cb, Running(c, []), HeaderLine(h) + rest)
         == Feed(cb, Running(AddHeader(ApplyHeader(c, h).value, h), []), rest)
  {
    HeaderTextIsAccepted(cb, c, h);
    FeedPrintedHeader(cb, c, h, AddHeader(ApplyHeader(c, h).value, h), rest);
  }

  lemma {:induction false} HeaderTextIsAccepted(cb: Callbacks, c: Config, h: Header)
    requires c.state == ST_HEADERS && Printable(h) && ApplyHeader(c, h).Some?
    ensures ProcessLine(cb, c, HeaderText(h)) == (AddHeader(ApplyHeader(c, h).value, h), Continue)
  {
    HeaderTextSplits(h);
    AcceptedHeader(cb, c, HeaderText(h), h);
  }

  lemma {:induction false} FeedPrintedHeader(cb: Callbacks, c: Config, h: Header, c': Config, rest: string)
    requires c.state != ST_DATA && Printable(h) && ProcessLine(cb, c, HeaderText(h)) == (c', Continue)
    ensures Feed(cb, Running(c, []), HeaderLine(h) + rest) == Feed(cb, Running(c', []), rest)
  {
    var l := h.0 + [':', ' '] + h.1 + ['\r'];
    assert HeaderLine(h) + rest == l + ['\n'] + rest;
    HeaderLineTrims(h);
    FeedContinuedLine(cb, c, l, HeaderText(h), c', rest);
  }

  lemma {:induction false} AcceptedHeader(cb: Callbacks, c: Config, line: string, h: Header)
    requires c.state == ST_HEADERS && line != [] && SplitHeader(line) == Some(h) && ApplyHeader(c, h).Some?
    ensures ProcessLine(cb, c, line) == (AddHeader(ApplyHeader(c, h).value, h), Continue)
  {
  }

  lemma {:induction false} FirstHeaderLine(headers: seq<Header>, rest: string, before: seq<Header>)
    requires headers != []
    ensures HeaderLines(headers) + rest == HeaderLine(headers[0]) + (HeaderLines(headers[1..]) + rest)
    ensures before + [headers[0]] + headers[1..] == before + headers
  {
    Regroup(HeaderLine(headers[0]), HeaderLines(headers[1..]), rest);
  }

  lemma {:induction false} FeedHeaderLines(cb: Callbacks, c: Config, headers: seq<Header>, rest: string)
    requires c.state == ST_HEADERS && (forall i :: 0 <= i < |headers| ==> Printable(headers[i]))
    requires AfterHeaders(c, headers).Some?
    ensures var c' := AfterHeaders(c, headers).value;
      && Feed(cb, Running(c, []), HeaderLines(headers) + rest) == Feed(cb, Running(c', []), rest)
      && c'.state == ST_HEADERS && c'.out == c.out.(headers := c.out.headers + headers)
    decreases |headers|
  {
    if headers == [] {
      assert HeaderLines(headers) + rest == rest && c.out.headers + [] == c.out.headers;
    } else {
      var h := headers[0];
      FirstHeaderLine(headers, rest, c.out.headers);
      FeedHeaderLine(cb, c, h, HeaderLines(headers[1..]) + rest);
      FeedHeaderLines(cb, AddHeader(ApplyHeader(c, h).value, h), headers[1..], rest);
    }
  }

  // ---------------------------------------------------------------- whole messages

  function Preamble(leader: string, headers: seq<Header>): string {
    leader + CRLF + HeaderLines(headers) + CRLF
  }

  const AfterLeader: Config := InitialConfig.(state := ST_HEADERS)

  /** A leader and headers that are printable and accepted by the callbacks, and lead to this state. */
  ghost predicate Presentable(cb: Callbacks, leader: string, headers: seq<Header>, c: Config) {
    && '\n' !in leader && (leader != [] ==> !IsSpace(leader[|leader| - 1]))
    && cb.parseLeader(leader) == HE_NONE
    && (forall i :: 0 <= i < |headers| ==> Printable(headers[i]))
    && AfterHeaders(AfterLeader.(out := Output([leader], [], [])), headers) == Some(c)
    && cb.headerComplete(c.out, c.chunked, c.dataSize).1 == HE_NONE
  }

  /** The messages the receiver is going to accept that are framed as chunked by their own headers. */
  ghost predicate Acceptable(cb: Callbacks, leader: string, headers: seq<Header>) {
    exists c :: Presentable(cb, leader, headers, c) && c.chunked
  }

  /** End to end: the parser recovers leader, headers and document from the wire, and stops exactly
      at the end of the message. */
  lemma {:induction false} MessageReadsBack(cb: Callbacks, leader: string, headers: seq<Header>, pieces: seq<string>,
                                            rest: string)
    requires Acceptable(cb, leader, headers) && ValidPieces(pieces)
    ensures Feed(cb, Running(InitialConfig, []), Preamble(leader, headers) + (Chunks(pieces) + (LAST_CHUNK + rest)))
         == Done(HE_NONE, Output([leader], headers, Concat(pieces)), rest)
  {
    var c1 :| Presentable(cb, leader, headers, c1) && c1.chunked;
    FeedPreamble(cb, leader, headers, c1, Chunks(pieces) + (LAST_CHUNK + rest));
    ChunkedBodyReadsBack(cb, BehindHeaders(cb, c1), pieces, rest);
    assert [] + Concat(pieces) == Concat(pieces);
  }

  /** The state behind the blank line. */
  function BehindHeaders(cb: Callbacks, c: Config): Config {
    c.(state := if c.chunked then ST_CHUNKSIZE else ST_DATA,
       dataSize := cb.headerComplete(c.out, c.chunked, c.dataSize).0)
  }

  lemma {:induction false} FeedPreamble(cb: Callbacks, leader: string, headers: seq<Header>, c1: Config, body: string)
    requires Presentable(cb, leader, headers, c1)
    ensures c1.state == ST_HEADERS && c1.out == Output([leader], headers, [])
    ensures Feed(cb, Running(InitialConfig, []), Preamble(leader, headers) + body)
         == Feed(cb, Running(BehindHeaders(cb, c1), []), body)
  {
    var c0 := AfterLeader.(out := Output([leader], [], []));
    var tail := HeaderLines(headers) + (CRLF + body);
    assert Preamble(leader, headers) + body == leader + CRLF + tail;
    assert [] + [leader] == [leader];
    FeedCrLfLine(cb, InitialConfig, leader, tail);
    FeedHeaderLines(cb, c0, headers, CRLF + body);
    assert [] + headers == headers;
    assert ProcessLine(cb, c1, []) == (BehindHeaders(cb, c1), Continue);
    FeedBlankLine(cb, c1, body);
  }

  lemma {:induction false} FeedBlankLine(cb: Callbacks, c: Config, rest: string)
    requires c.state != ST_DATA && ProcessLine(cb, c, []).1 == Continue
    ensures Feed(cb, Running(c, []), CRLF + rest) == Feed(cb, Running(ProcessLine(cb, c, []).0, []), rest)
  {
    FeedCrLfLine(cb, c, [], rest);
    assert [] + CRLF + rest == CRLF + rest;
  }
}
