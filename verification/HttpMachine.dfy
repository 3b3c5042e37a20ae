/** The HTTP/1.1 message parser of httpbase.cc as a machine that takes one character at a time.
    It is the reference the buffered parser is proved against: cutting the input elsewhere cannot
    matter to a machine that never sees more than one character. */
module HttpMachine {
  import opened Common

  datatype HttpError =
    | HE_NONE | HE_PROTOCOL | HE_DISCONNECTED | HE_OVERFLOW | HE_SOCKET_ERROR | HE_STREAM
    | HE_AUTH | HE_CERTIFICATE_EXPIRED | HE_OTHER

  datatype State = ST_LEADER | ST_HEADERS | ST_CHUNKSIZE | ST_CHUNKTERM | ST_TRAILERS | ST_DATA

  type Header = (string, string)

  /** What the parser has reported to its callbacks so far. */
  datatype Output = Output(leaders: seq<string>, headers: seq<Header>, body: string)

  /** size_t and unsigned long are 64 bits wide. */
  const ULONG_MAX: nat := 0xFFFF_FFFF_FFFF_FFFF
  type Size = n: nat | n <= ULONG_MAX
  const SIZE_UNKNOWN: Size := 0xFFFF_FFFF_FFFF_FFFF

  datatype Config = Config(state: State, chunked: bool, dataSize: Size, out: Output)

  /** The answers of the callbacks: parseLeader, and onHttpHeaderComplete, which may also change
      the data size. */
  datatype Callbacks = Callbacks(
    parseLeader: string -> HttpError,
    headerComplete: (Output, bool, Size) -> (Size, HttpError))

  const InitialConfig: Config := Config(ST_LEADER, false, SIZE_UNKNOWN, Output([], [], ""))

  // ---------------------------------------------------------------- the C library on characters

  predicate IsSpace(c: char) { c == ' ' || '\t' <= c <= '\r' }

  predicate IsDigit(c: char) { '0' <= c <= '9' }

  function ToLower(c: char): char {
    if 'A' <= c <= 'Z' then c + 32 as char else c
  }

  predicate EqualsIgnoringCase(s: string, t: string) {
    |s| == |t| && forall i :: 0 <= i < |s| ==> ToLower(s[i]) == ToLower(t[i])
  }

  function TrimRight(s: string): string {
    if s != [] && IsSpace(s[|s| - 1]) then TrimRight(s[..|s| - 1]) else s
  }

  function SkipSpaces(s: string): (i: nat)
    ensures i <= |s| && (i < |s| ==> !IsSpace(s[i]))
  {
    if s != [] && IsSpace(s[0]) then 1 + SkipSpaces(s[1..]) else 0
  }

  /** strchrn: the first c before any NUL character. */
  function IndexOf(s: string, c: char): (r: Option<nat>)
    ensures r.Some? ==> r.value < |s| && s[r.value] == c
  {
    if s == [] || s[0] == '\0' then None
    else if s[0] == c then Some(0)
    else match IndexOf(s[1..], c)
      case None => None
      case Some(i) => Some(i + 1)
  }

  function DigitValue(c: char): nat {
    if IsDigit(c) then (c - '0') as nat
    else if 'a' <= c <= 'f' then (c - 'a') as nat + 10
    else if 'A' <= c <= 'F' then (c - 'A') as nat + 10
    else 99
  }

  /** The length of the leading run of digits of a base. */
  function DigitRun(s: string, base: nat): (n: nat)
    ensures n <= |s|
  {
    if s != [] && DigitValue(s[0]) < base then 1 + DigitRun(s[1..], base) else 0
  }

  function Number(s: string, base: nat): nat
    requires base == 10 || base == 16
  {
    if s == [] then 0
    else
      var high := Number(s[..|s| - 1], base);
      (if base == 10 then 10 * high else 16 * high) + DigitValue(s[|s| - 1])
  }

  /** strtoul: leading space, a sign, an optional 0x for base 16, digits; the value saturates on
      overflow and is negated modulo 2^64 by a minus sign. The second result counts the characters
      used and is 0 when there is no number. */
  function StrToUlong(s: string, base: nat): (r: (Size, nat))
    requires base == 10 || base == 16
    ensures r.1 <= |s|
  {
    var i := SkipSpaces(s);
    var negative := i < |s| && s[i] == '-';
    var j := if i < |s| && (s[i] == '-' || s[i] == '+') then i + 1 else i;
    var k := if base == 16 && j + 2 < |s| && s[j] == '0' && (s[j + 1] == 'x' || s[j + 1] == 'X')
                && DigitValue(s[j + 2]) < 16 then j + 2 else j;
    DigitsFrom(s, k, base, negative)
  }

  function DigitsFrom(s: string, k: nat, base: nat, negative: bool): (r: (Size, nat))
    requires (base == 10 || base == 16) && k <= |s|
    ensures r.1 <= |s|
  {
    var n := DigitRun(s[k..], base);
    if n == 0 then (0, 0)
    else
      var v := Number(s[k..k + n], base);
      (if v > ULONG_MAX then ULONG_MAX else if negative && v > 0 then ULONG_MAX + 1 - v else v, k + n)
  }

  /** sscanf with %u into a 32-bit unsigned int. */
  function ScanUnsigned(s: string): Option<Size> {
    var (v, used) := StrToUlong(s, 10);
    if used == 0 then None else Some(v % 0x1_0000_0000)
  }

  // ---------------------------------------------------------------- one line

  datatype LineResult = Continue | Complete(error: HttpError)

  /** A header line split at its first colon, with the space behind the colon dropped. */
  function SplitHeader(line: string): Option<Header> {
    match IndexOf(line, ':')
    case None => None
    case Some(i) => Some((line[..i], line[i + 1..][SkipSpaces(line[i + 1..])..]))
  }

  /** What a Content-Length or Transfer-Encoding header does to the framing; None is an error. */
  function ApplyHeader(c: Config, h: Header): Option<Config> {
    if EqualsIgnoringCase(h.0, "Content-Length") then
      match ScanUnsigned(h.1)
      case None => None
      case Some(n) => Some(c.(dataSize := n))
    else if EqualsIgnoringCase(h.0, "Transfer-Encoding") then
      if EqualsIgnoringCase(h.1, "chunked") then Some(c.(chunked := true))
      else if EqualsIgnoringCase(h.1, "identity") then Some(c.(chunked := false))
      else None
    else Some(c)
  }

  function AddHeader(c: Config, h: Header): Config {
    c.(out := c.out.(headers := c.out.headers + [h]))
  }

  /** ProcessLine on a line whose trailing space is already trimmed. */
  function ProcessLine(cb: Callbacks, c: Config, line: string): (Config, LineResult)
    requires c.state != ST_DATA
  {
    match c.state
    case ST_LEADER =>
      var c' := c.(state := ST_HEADERS, out := c.out.(leaders := c.out.leaders + [line]));
      var e := cb.parseLeader(line);
      (c', if e == HE_NONE then Continue else Complete(e))
    case ST_HEADERS =>
      if line != [] then
        match SplitHeader(line)
        case None => (c, Complete(HE_PROTOCOL))
        case Some(h) =>
          match ApplyHeader(c, h)
          case None => (c, Complete(HE_PROTOCOL))
          case Some(c') => (AddHeader(c', h), Continue)
      else
        var (size, e) := cb.headerComplete(c.out, c.chunked, c.dataSize);
        (c.(state := if c.chunked then ST_CHUNKSIZE else ST_DATA, dataSize := size),
         if e == HE_NONE then Continue else Complete(e))
    case ST_CHUNKSIZE =>
      if line == [] then (c, Complete(HE_PROTOCOL))
      else
        var (size, used) := StrToUlong(line, 16);
        if used != |line| then (c.(dataSize := size), Complete(HE_PROTOCOL))
        else (c.(dataSize := size, state := if size == 0 then ST_TRAILERS else ST_DATA), Continue)
    case ST_CHUNKTERM =>
      if line != [] then (c, Complete(HE_PROTOCOL))
      else (c.(state := if c.chunked then ST_CHUNKSIZE else ST_DATA), Continue)
    case ST_TRAILERS =>
      (c, if line == [] then Complete(HE_NONE) else Continue)
  }

  // ---------------------------------------------------------------- the machine

  /** pending is the part of the current line seen so far; leftover is what follows the message. */
  datatype Machine =
    | Running(config: Config, pending: string)
    | Done(error: HttpError, out: Output, leftover: string)

  /** The transitions that need no input: a finished body. */
  function Settle(m: Machine): Machine {
    if m.Running? && m.config.state == ST_DATA && m.config.dataSize == 0 then
      if m.config.chunked then Running(m.config.(state := ST_CHUNKTERM), [])
      else Done(HE_NONE, m.config.out, [])
    else m
  }

  function AddBody(c: Config, data: string): Config
    requires c.dataSize == SIZE_UNKNOWN || |data| <= c.dataSize
  {
    c.(out := c.out.(body := c.out.body + data),
       dataSize := if c.dataSize == SIZE_UNKNOWN then SIZE_UNKNOWN else c.dataSize - |data|)
  }

  /** A complete line, without its newline, in a line state. */
  function EndLine(cb: Callbacks, c: Config, line: string): Machine
    requires c.state != ST_DATA
  {
    var (c', r) := ProcessLine(cb, c, TrimRight(line));
    match r
    case Continue => Settle(Running(c', []))
    case Complete(e) => Done(e, c'.out, [])
  }

  function FeedChar(cb: Callbacks, m: Machine, x: char): Machine {
    match Settle(m)
    case Done(e, out, leftover) => Done(e, out, leftover + [x])
    case Running(c, pending) =>
      if c.state == ST_DATA then Settle(Running(AddBody(c, [x]), []))
      else if x == '\n' then EndLine(cb, c, pending)
      else Running(c, pending + [x])
  }

  function Feed(cb: Callbacks, m: Machine, s: string): Machine
    decreases |s|
  {
    if s == [] then Settle(m) else Feed(cb, FeedChar(cb, m, s[0]), s[1..])
  }

  lemma {:induction false} FeedSettled(cb: Callbacks, m: Machine, s: string)
    ensures Feed(cb, Settle(m), s) == Feed(cb, m, s)
  {
    assert Settle(Settle(m)) == Settle(m);
  }

  /** Feeding in pieces is feeding the concatenation. */
  lemma {:induction false} FeedConcat(cb: Callbacks, m: Machine, a: string, b: string)
    ensures Feed(cb, Feed(cb, m, a), b) == Feed(cb, m, a + b)
    decreases |a|
  {
    if a == [] {
      assert a + b == b;
      FeedSettled(cb, m, b);
    } else {
      assert (a + b)[0] == a[0] && (a + b)[1..] == a[1..] + b;
      FeedConcat(cb, FeedChar(cb, m, a[0]), a[1..], b);
    }
  }

  lemma {:induction false} FeedDone(cb: Callbacks, e: HttpError, out: Output, leftover: string, s: string)
    ensures Feed(cb, Done(e, out, leftover), s) == Done(e, out, leftover + s)
    decreases |s|
  {
    if s == [] {
      assert leftover + s == leftover;
    } else {
      FeedDone(cb, e, out, leftover + [s[0]], s[1..]);
      assert leftover + [s[0]] + s[1..] == leftover + s;
    }
  }

  /** Characters of an unfinished line only accumulate. */
  lemma {:induction false} FeedPartOfLine(cb: Callbacks, c: Config, pending: string, s: string)
    requires c.state != ST_DATA && '\n' !in s
    ensures Feed(cb, Running(c, pending), s) == Running(c, pending + s)
    decreases |s|
  {
    if s == [] {
      assert pending + s == pending;
    } else {
      assert s[0] != '\n';
      FeedPartOfLine(cb, c, pending + [s[0]], s[1..]);
      assert pending + [s[0]] + s[1..] == pending + s;
    }
  }

  /** A whole line is processed as the buffered parser processes it. */
  lemma {:induction false} FeedLine(cb: Callbacks, c: Config, line: string, rest: string)
    requires c.state != ST_DATA && '\n' !in line
    ensures Feed(cb, Running(c, []), line + ['\n'] + rest) == Feed(cb, EndLine(cb, c, line), rest)
  {
    FeedPartOfLine(cb, c, [], line);
    assert [] + line == line;
    FeedConcat(cb, Running(c, []), line, ['\n'] + rest);
    assert line + ['\n'] + rest == line + (['\n'] + rest);
    assert (['\n'] + rest)[1..] == rest;
  }

  /** Body data is accumulated the same way in any portions. */
  lemma {:induction false} FeedBody(cb: Callbacks, c: Config, data: string, rest: string)
    requires c.state == ST_DATA && (c.dataSize == SIZE_UNKNOWN || |data| <= c.dataSize)
    ensures Feed(cb, Running(c, []), data + rest) == Feed(cb, Running(AddBody(c, data), []), rest)
    decreases |data|
  {
    if data == [] {
      assert data + rest == rest && c.out.body + data == c.out.body;
      assert AddBody(c, data) == c;
    } else {
      var x, t := data[0], data[1..];
      assert (data + rest)[0] == x && (data + rest)[1..] == t + rest;
      var c' := AddBody(c, [x]);
      FeedSettled(cb, Running(c', []), t + rest);
      FeedBody(cb, c', t, rest);
      assert c.out.body + [x] + t == c.out.body + data;
      assert AddBody(c', t) == AddBody(c, data);
      assert FeedChar(cb, Running(c, []), x) == Settle(Running(c', []));
    }
  }
}
