/** How the headers of a message frame its body, in terms of the characters on the wire: a body of
    given length, a chunked body, and the messages that are refused. */
module HttpFraming {
  import opened Common
  import opened HttpMachine
  import opened HttpWire

  // ---------------------------------------------------------------- the C library

  /** isspace in the C locale. */
  lemma {:induction false} SpaceIs(c: char)
    ensures IsSpace(c) <==> c in " \t\n\r" || c as int == 11 || c as int == 12
  {
  }

  lemma {:induction false} HexDigitsAre(c: char)
    ensures forall i :: 0 <= i < 16 ==> DigitValue("0123456789abcdef"[i]) == i && DigitValue("0123456789ABCDEF"[i]) == i
    ensures DigitValue(c) < 16 <==> c in "0123456789abcdefABCDEF"
  {
    if DigitValue(c) < 10 {
      assert c == "0123456789"[DigitValue(c)];
    } else if 'a' <= c <= 'f' {
      assert c == "abcdef"[DigitValue(c) - 10];
    } else if 'A' <= c <= 'F' {
      assert c == "ABCDEF"[DigitValue(c) - 10];
    }
  }

  lemma {:induction false} LowerCaseIs(c: char)
    ensures forall i :: 0 <= i < 26 ==>
      ToLower("ABCDEFGHIJKLMNOPQRSTUVWXYZ"[i]) == "abcdefghijklmnopqrstuvwxyz"[i]
    ensures c !in "ABCDEFGHIJKLMNOPQRSTUVWXYZ" ==> ToLower(c) == c
  {
    if 'A' <= c <= 'Z' {
      assert c == "ABCDEFGHIJKLMNOPQRSTUVWXYZ"[(c - 'A') as int];
    }
  }

  /** The two characters are equal, or the same letter once as a capital. */
  predicate SameLetter(c: char, d: char) {
    c == d || ('A' <= c <= 'Z' && d == c + 32 as char) || ('A' <= d <= 'Z' && c == d + 32 as char)
  }

  lemma {:induction false} LetterIs(c: char, d: char)
    ensures ToLower(c) == ToLower(d) <==> SameLetter(c, d)
  {
  }

  /** Header names and codings are compared letter by letter. */
  lemma {:induction false} CaseIsIgnored(s: string, t: string)
    ensures EqualsIgnoringCase(s, t) <==> |s| == |t| && forall i :: 0 <= i < |s| ==> SameLetter(s[i], t[i])
  {
    forall c, d { LetterIs(c, d); }
  }

  // ---------------------------------------------------------------- numbers

  lemma {:induction false} DecimalDigits(n: nat)
    ensures forall i :: 0 <= i < |Decimal(n)| ==> IsDigit(Decimal(n)[i]) && DigitValue(Decimal(n)[i]) < 10
  {
    if n < 10 {
    } else {
      DecimalDigits(n / 10);
    }
  }

  lemma {:induction false} DecimalValue(n: nat)
    ensures Number(Decimal(n), 10) == n
  {
    if n < 10 {
      assert [Digit(n)][..0] == [];
      assert Number([Digit(n)], 10) == 10 * Number([], 10) + DigitValue(Digit(n));
    } else {
      DecimalValue(n / 10);
      var s := Decimal(n);
      assert s[..|s| - 1] == Decimal(n / 10);
      assert DigitValue(Digit(n % 10)) == n % 10;
    }
  }

  /** A length in decimal is read back modulo 2^32, and saturates at 64 bits before that. */
  lemma {:induction false} LengthReadsBack(n: nat)
    ensures ScanUnsigned(Decimal(n))
         == Some(if n < 0x1_0000_0000_0000_0000 then n % 0x1_0000_0000 else 0xFFFF_FFFF)
  {
    DecimalDigits(n);
    DecimalValue(n);
    DecimalNumber(Decimal(n), n);
  }

  lemma {:induction false} DecimalNumber(s: string, n: nat)
    requires s != "" && Number(s, 10) == n && forall i :: 0 <= i < |s| ==> IsDigit(s[i]) && DigitValue(s[i]) < 10
    ensures StrToUlong(s, 10) == (if n > ULONG_MAX then ULONG_MAX else n, |s|)
  {
    assert IsDigit(s[0]) && (|s| > 1 ==> IsDigit(s[1]));
    PlainNumber(s, 10);
  }

  /** A value that is saturated, or negated modulo 2^64. */
  function Signed(v: nat, negative: bool): Size {
    if v > 0xFFFF_FFFF_FFFF_FFFF then 0xFFFF_FFFF_FFFF_FFFF
    else if negative && v > 0 then 0x1_0000_0000_0000_0000 - v
    else v
  }

  predicate IsSign(sign: string) { sign == "" || sign == "+" || sign == "-" }

  predicate IsPrefix(prefix: string) { prefix == "" || prefix == "0x" || prefix == "0X" }

  /** What the number parser takes from a text, given its parts. */
  lemma {:induction false} NumberInParts(s: string, space: string, sign: string, prefix: string, digits: string,
                                         rest: string, base: nat)
    requires s == space + (sign + (prefix + (digits + rest))) && (base == 10 || base == 16)
    requires forall i :: 0 <= i < |space| ==> IsSpace(space[i])
    requires IsSign(sign) && IsPrefix(prefix) && (prefix == "" || base == 16)
    requires digits != "" && forall i :: 0 <= i < |digits| ==> DigitValue(digits[i]) < base
    requires rest != "" ==> DigitValue(rest[0]) >= base
    requires prefix == "" && base == 16 ==> digits[0] != '0'
    ensures StrToUlong(s, base).0 == Signed(Number(digits, base), sign == "-")
    ensures StrToUlong(s, base).1 == |space| + |sign| + |prefix| + |digits|
  {
    var i, j, k := |space|, |space| + |sign|, |space| + |sign| + |prefix|;
    SlicesOf(s, space, sign, prefix, digits + rest, i, j, k);
    NumberInTail(s, space, sign, prefix, digits, rest, base, i, j, k);
  }

  lemma {:induction false} NumberInTail(s: string, space: string, sign: string, prefix: string, digits: string,
                                        rest: string, base: nat, i: nat, j: nat, k: nat)
    requires (base == 10 || base == 16) && |space| == i && forall i :: 0 <= i < |space| ==> IsSpace(space[i])
    requires IsSign(sign) && IsPrefix(prefix) && (prefix == "" || base == 16)
    requires i <= j <= k < |s| && s == space + s[i..] && s[i..] == sign + s[j..] && s[j..] == prefix + s[k..]
    requires |sign| == j - i && |prefix| == k - j && s[k..] == digits + rest
    requires digits != "" && forall i :: 0 <= i < |digits| ==> DigitValue(digits[i]) < base
    requires rest != "" ==> DigitValue(rest[0]) >= base
    requires prefix == "" && base == 16 ==> digits[0] != '0'
    ensures StrToUlong(s, base).0 == Signed(Number(digits, base), sign == "-")
    ensures StrToUlong(s, base).1 == k + |digits|
  {
    DigitsBehind(s, digits, rest, base, k);
    NumberInSlices(s, space, sign, prefix, s[k..], base, i, j, k, |digits|, Number(digits, base));
  }

  lemma {:induction false} NumberInSlices(s: string, space: string, sign: string, prefix: string, tail: string,
                                          base: nat, i: nat, j: nat, k: nat, n: nat, v: nat)
    requires (base == 10 || base == 16) && |space| == i && forall i :: 0 <= i < |space| ==> IsSpace(space[i])
    requires IsSign(sign) && IsPrefix(prefix) && (prefix == "" || base == 16)
    requires i <= j <= k < |s| && s == space + s[i..] && s[i..] == sign + s[j..] && s[j..] == prefix + s[k..]
    requires |sign| == j - i && |prefix| == k - j && s[k..] == tail && tail != "" && DigitValue(tail[0]) < base
    requires prefix == "" && base == 16 ==> tail[0] != '0'
    requires k + n <= |s| && n > 0 && DigitRun(s[k..], base) == n && Number(s[k..k + n], base) == v
    ensures StrToUlong(s, base).0 == Signed(v, sign == "-") && StrToUlong(s, base).1 == k + n
  {
    FirstBehind(s, space, sign, prefix, tail, i, j, k);
    SpacesAreSkipped(space, s[i..]);
    NumberBehind(s, sign, prefix, tail, base, i, j, k, n, v);
  }

  lemma {:induction false} SlicesOf(s: string, space: string, sign: string, prefix: string, tail: string,
                                    i: nat, j: nat, k: nat)
    requires s == space + (sign + (prefix + tail))
    requires i == |space| && j == i + |sign| && k == j + |prefix|
    ensures k + |tail| == |s| && s == space + s[i..] && s[i..] == sign + s[j..] && s[j..] == prefix + s[k..]
    ensures s[k..] == tail
  {
    assert s[0..] == s;
    Behind(s, space, sign + (prefix + tail), 0);
    Behind(s, sign, prefix + tail, i);
    Behind(s, prefix, tail, j);
  }

  lemma {:induction false} Behind(s: string, a: string, b: string, i: nat)
    requires i <= |s| && s[i..] == a + b
    ensures i + |a| <= |s| && s[i + |a|..] == b && s[i..] == a + s[i + |a|..]
  {
  }

  lemma {:induction false} DigitsBehind(s: string, digits: string, rest: string, base: nat, k: nat)
    requires (base == 10 || base == 16) && k <= |s| && s[k..] == digits + rest
    requires forall i :: 0 <= i < |digits| ==> DigitValue(digits[i]) < base
    requires rest != "" ==> DigitValue(rest[0]) >= base
    ensures k + |digits| <= |s| && s[k..k + |digits|] == digits && DigitRun(s[k..], base) == |digits|
  {
    DigitsAreTaken(digits, rest, base);
    assert s[k..k + |digits|] == s[k..][..|digits|];
  }

  lemma {:induction false} FirstBehind(s: string, space: string, sign: string, prefix: string, tail: string,
                                       i: nat, j: nat, k: nat)
    requires IsSign(sign) && IsPrefix(prefix) && tail != "" && DigitValue(tail[0]) < 16
    requires i <= j <= k < |s| && |sign| == j - i && |prefix| == k - j
    requires s[i..] == sign + s[j..] && s[j..] == prefix + s[k..] && s[k..] == tail
    ensures !IsSpace(s[i]) && !IsSpace(s[i..][0])
  {
    DigitsAreNoSpace();
    if sign == "" {
      if prefix == "" { assert s[i] == s[k..][0]; } else { assert s[i] == s[j..][0]; }
    } else {
      assert s[i] == s[i..][0];
    }
  }

  lemma {:induction false} NumberBehind(s: string, sign: string, prefix: string, tail: string, base: nat,
                                        i: nat, j: nat, k: nat, n: nat, v: nat)
    requires base == 10 || base == 16
    requires IsSign(sign) && IsPrefix(prefix) && (prefix == "" || base == 16)
    requires i <= j <= k < |s| && s[i..] == sign + s[j..] && s[j..] == prefix + s[k..] && s[k..] == tail
    requires |sign| == j - i && |prefix| == k - j && DigitValue(tail[0]) < base
    requires prefix == "" && base == 16 ==> tail[0] != '0'
    requires k + n <= |s| && n > 0 && SkipSpaces(s) == i && DigitRun(s[k..], base) == n
    requires Number(s[k..k + n], base) == v
    ensures StrToUlong(s, base).0 == Signed(v, sign == "-") && StrToUlong(s, base).1 == k + n
  {
    SignAndPrefix(s, sign, prefix, tail, base, i, j, k);
    NumberAt(s, base, i, j, k, n, v, sign == "-");
  }

  /** Where the digits begin. */
  lemma {:induction false} SignAndPrefix(s: string, sign: string, prefix: string, tail: string, base: nat,
                                         i: nat, j: nat, k: nat)
    requires IsSign(sign) && IsPrefix(prefix) && (prefix == "" || base == 16)
    requires i <= j <= k < |s| && s[i..] == sign + s[j..] && s[j..] == prefix + s[k..] && s[k..] == tail
    requires |sign| == j - i && |prefix| == k - j && DigitValue(tail[0]) < base <= 16
    requires prefix == "" && base == 16 ==> tail[0] != '0'
    ensures i < |s| && (s[i] == '-' <==> sign == "-") && (s[i] == '+' <==> sign == "+")
    ensures prefix == "" && base == 16 && j + 2 < |s| && s[j] == '0' ==> s[j + 1] != 'x' && s[j + 1] != 'X'
    ensures prefix != "" ==> s[j] == '0' && (s[j + 1] == 'x' || s[j + 1] == 'X') && DigitValue(s[j + 2]) < 16
  {
    DigitsAreNoSpace();
    assert s[k] == tail[0];
    if prefix == "" {
      assert s[j] == tail[0];
      if j + 1 < |s| { assert s[j + 1] == tail[1]; }
    } else {
      assert s[j..][0] == '0' && s[j..][1] == prefix[1] && s[j..][2] == tail[0];
    }
    if sign == "" { assert s[i] == s[j]; } else { assert s[i..][0] == sign[0]; }
  }

  lemma {:induction false} NumberAt(s: string, base: nat, i: nat, j: nat, k: nat, n: nat, v: nat,
                                    negative: bool)
    requires base == 10 || base == 16
    requires SkipSpaces(s) == i < |s| && j == (if s[i] == '-' || s[i] == '+' then i + 1 else i)
    requires k == if base == 16 && j + 2 < |s| && s[j] == '0' && (s[j + 1] == 'x' || s[j + 1] == 'X')
                     && DigitValue(s[j + 2]) < 16 then j + 2 else j
    requires k + n <= |s| && n > 0 && DigitRun(s[k..], base) == n && Number(s[k..k + n], base) == v
    requires negative <==> s[i] == '-'
    ensures StrToUlong(s, base).0 == Signed(v, negative) && StrToUlong(s, base).1 == k + n
  {
    assert StrToUlong(s, base) == DigitsFrom(s, k, base, negative);
    DigitsAt(s, base, k, n, v, negative);
  }

  lemma {:induction false} DigitsAt(s: string, base: nat, k: nat, n: nat, v: nat, negative: bool)
    requires (base == 10 || base == 16) && k + n <= |s| && n > 0
    requires DigitRun(s[k..], base) == n && Number(s[k..k + n], base) == v
    ensures DigitsFrom(s, k, base, negative).0 == Signed(v, negative) && DigitsFrom(s, k, base, negative).1 == k + n
  {
  }

  lemma {:induction false} DigitsAreNoSpace()
    ensures forall c :: DigitValue(c) < 16 ==> !IsSpace(c) && c != '+' && c != '-' && c != 'x' && c != 'X'
  {
  }

  lemma {:induction false} SpacesAreSkipped(space: string, rest: string)
    requires (forall i :: 0 <= i < |space| ==> IsSpace(space[i])) && (rest != "" ==> !IsSpace(rest[0]))
    ensures SkipSpaces(space + rest) == |space|
  {
    if space == "" {
      assert space + rest == rest;
    } else {
      assert (space + rest)[1..] == space[1..] + rest;
      SpacesAreSkipped(space[1..], rest);
    }
  }

  lemma {:induction false} DigitsAreTaken(digits: string, rest: string, base: nat)
    requires forall i :: 0 <= i < |digits| ==> DigitValue(digits[i]) < base
    requires rest != "" ==> DigitValue(rest[0]) >= base
    ensures DigitRun(digits + rest, base) == |digits|
  {
    if digits == "" {
      assert digits + rest == rest;
    } else {
      assert (digits + rest)[1..] == digits[1..] + rest;
      DigitsAreTaken(digits[1..], rest, base);
    }
  }

  // ---------------------------------------------------------------- framing headers

  /** Headers that say nothing about the body. */
  predicate Neutral(h: Header) {
    !EqualsIgnoringCase(h.0, "Content-Length") && !EqualsIgnoringCase(h.0, "Transfer-Encoding")
  }

  lemma {:induction false} NeutralHeaders(c: Config, headers: seq<Header>)
    requires forall i :: 0 <= i < |headers| ==> Neutral(headers[i])
    ensures AfterHeaders(c, headers) == Some(c.(out := c.out.(headers := c.out.headers + headers)))
    decreases |headers|
  {
    if headers == [] {
      assert c.out.headers + headers == c.out.headers;
    } else {
      NeutralHeaders(AddHeader(c, headers[0]), headers[1..]);
      assert c.out.headers + [headers[0]] + headers[1..] == c.out.headers + headers;
    }
  }

  lemma {:induction false} AfterOneMore(c: Config, headers: seq<Header>, h: Header, c1: Config, c2: Config)
    requires AfterHeaders(c, headers) == Some(c1) && ApplyHeader(c1, h) == Some(c2)
    ensures AfterHeaders(c, headers + [h]) == Some(AddHeader(c2, h))
    decreases |headers|
  {
    if headers == [] {
      assert headers + [h] == [h] && [h][1..] == [];
    } else {
      assert (headers + [h])[1..] == headers[1..] + [h];
      AfterOneMore(AddHeader(ApplyHeader(c, headers[0]).value, headers[0]), headers[1..], h, c1, c2);
    }
  }

  /** Leader and headers in front of a framing header. */
  ghost predicate Plain(cb: Callbacks, leader: string, headers: seq<Header>) {
    && '\n' !in leader && (leader != "" ==> !IsSpace(leader[|leader| - 1])) && cb.parseLeader(leader) == HE_NONE
    && forall i :: 0 <= i < |headers| ==> Printable(headers[i]) && Neutral(headers[i])
  }

  lemma {:induction false} FramingHeader(cb: Callbacks, leader: string, headers: seq<Header>, h: Header, c: Config)
    requires Plain(cb, leader, headers) && Printable(h)
    requires ApplyHeader(AfterLeader.(out := Output([leader], headers, "")), h) == Some(c)
    requires cb.headerComplete(Output([leader], headers + [h], ""), c.chunked, c.dataSize).1 == HE_NONE
    ensures Presentable(cb, leader, headers + [h], AddHeader(c, h))
  {
    var c0 := AfterLeader.(out := Output([leader], [], []));
    NeutralHeaders(c0, headers);
    assert [] + headers == headers;
    AfterOneMore(c0, headers, h, AfterLeader.(out := Output([leader], headers, "")), c);
  }

  lemma {:induction false} PreambleText(leader: string, headers: seq<Header>, name: string, value: string, body: string)
    ensures leader + "\r\n" + HeaderLines(headers) + (name + ": " + value + "\r\n\r\n") + body
         == Preamble(leader, headers + [(name, value)]) + body
  {
    HeaderLinesOneMore(headers, (name, value));
    assert HeaderLine((name, value)) == name + ": " + value + "\r\n";
  }

  lemma {:induction false} HeaderLinesOneMore(headers: seq<Header>, h: Header)
    ensures HeaderLines(headers + [h]) == HeaderLines(headers) + HeaderLine(h)
    decreases |headers|
  {
    if headers == [] {
      assert [] + [h] == [h] && [h][1..] == [];
    } else {
      assert (headers + [h])[1..] == headers[1..] + [h];
      HeaderLinesOneMore(headers[1..], h);
    }
  }

  /** A body of given length: the message ends exactly behind that many characters. */
  lemma {:induction false} MessageOfKnownLength(cb: Callbacks, leader: string, headers: seq<Header>, body: string,
                                                rest: string)
    requires Plain(cb, leader, headers) && |body| < 0x1_0000_0000
    requires var all := headers + [("Content-Length", Decimal(|body|))];
      cb.headerComplete(Output([leader], all, ""), false, |body|) == (|body|, HE_NONE)
    ensures Feed(cb, Running(InitialConfig, []),
                 leader + "\r\n" + HeaderLines(headers) + ("Content-Length" + ": " + Decimal(|body|) + "\r\n\r\n")
                 + (body + rest))
         == Done(HE_NONE, Output([leader], headers + [("Content-Length", Decimal(|body|))], body), rest)
  {
    var h := ("Content-Length", Decimal(|body|));
    var c := KnownLength(cb, leader, headers, |body|);
    FeedPreamble(cb, leader, headers + [h], c, body + rest);
    PreambleText(leader, headers, h.0, h.1, body + rest);
    FeedWholeBody(cb, BehindHeaders(cb, c), body, rest);
  }

  lemma {:induction false} KnownLength(cb: Callbacks, leader: string, headers: seq<Header>, n: nat) returns (c: Config)
    requires Plain(cb, leader, headers) && n < 0x1_0000_0000
    requires cb.headerComplete(Output([leader], headers + [("Content-Length", Decimal(n))], ""), false, n)
          == (n, HE_NONE)
    ensures Presentable(cb, leader, headers + [("Content-Length", Decimal(n))], c) && !c.chunked && c.dataSize == n
  {
    var h := ("Content-Length", Decimal(n));
    var c' := AfterLeader.(out := Output([leader], headers, ""), dataSize := n);
    LengthIsPrintable(n);
    LengthReadsBack(n);
    LengthApplies(AfterLeader.(out := Output([leader], headers, "")), h, n);
    FramingHeader(cb, leader, headers, h, c');
    c := AddHeader(c', h);
  }

  lemma {:induction false} LengthIsPrintable(n: nat)
    ensures Printable(("Content-Length", Decimal(n)))
  {
    DecimalDigits(n);
  }

  lemma {:induction false} LengthApplies(c: Config, h: Header, n: nat)
    requires h.0 == "Content-Length" && n < 0x1_0000_0000 && ScanUnsigned(h.1) == Some(n)
    ensures ApplyHeader(c, h) == Some(c.(dataSize := n))
  {
  }

  lemma {:induction false} FeedWholeBody(cb: Callbacks, c: Config, body: string, rest: string)
    requires c.state == ST_DATA && !c.chunked && c.dataSize == |body| < SIZE_UNKNOWN && c.out.body == ""
    ensures Feed(cb, Running(c, []), body + rest) == Done(HE_NONE, c.out.(body := body), rest)
  {
    FeedBody(cb, c, body, rest);
    var c' := AddBody(c, body);
    assert "" + body == body;
    FeedSettled(cb, Running(c', []), rest);
    FeedDone(cb, HE_NONE, c'.out, [], rest);
    assert [] + rest == rest;
  }

  /** A chunked body, announced by its header: each chunk is eight hexadecimal digits, a line end, the
      data and a line end. */
  lemma {:induction false} MessageInChunks(cb: Callbacks, leader: string, headers: seq<Header>, pieces: seq<string>,
                                           rest: string)
    requires Plain(cb, leader, headers) && ValidPieces(pieces)
    requires var all := headers + [("Transfer-Encoding", "chunked")];
      cb.headerComplete(Output([leader], all, ""), true, SIZE_UNKNOWN).1 == HE_NONE
    ensures Feed(cb, Running(InitialConfig, []),
                 leader + "\r\n" + HeaderLines(headers) + ("Transfer-Encoding" + ": " + "chunked" + "\r\n\r\n")
                 + (Chunks(pieces) + ("0\r\n\r\n" + rest)))
         == Done(HE_NONE, Output([leader], headers + [("Transfer-Encoding", "chunked")], Concat(pieces)), rest)
  {
    var h := ("Transfer-Encoding", "chunked");
    var c := AfterLeader.(out := Output([leader], headers, ""), chunked := true);
    FramingHeader(cb, leader, headers, h, c);
    PreambleText(leader, headers, h.0, h.1, Chunks(pieces) + (LAST_CHUNK + rest));
    MessageReadsBack(cb, leader, headers + [h], pieces, rest);
  }

  lemma {:induction false} HexOfZero(count: nat)
    ensures forall i :: 0 <= i < count ==> Hex(0, count)[i] == '0'
  {
    if count == 0 {
    } else {
      HexOfZero(count - 1);
    }
  }

  /** The wire in literal characters. */
  lemma {:induction false} WireExamples()
    ensures HeaderLine(("Host", "example.org")) == "Host: example.org\r\n"
    ensures Chunk("hello, world") == "0000000c\r\nhello, world\r\n"
    ensures LAST_CHUNK == "0\r\n\r\n"
  {
    HexOfZero(7);
    assert Hex(0, 7) == "0000000";
    assert Hex(12, 8) == Hex(0, 7) + [HexDigit(12)];
    assert "0000000c" + "\r\n" + "hello, world" + "\r\n" == "0000000c\r\nhello, world\r\n";
  }

  lemma {:induction false} NumberOfTwo(a: char, b: char, base: nat)
    requires (base == 10 || base == 16) && DigitValue(a) < base && DigitValue(b) < base
    ensures Number([a], base) == DigitValue(a) && Number([a, b], base) == base * DigitValue(a) + DigitValue(b)
  {
    assert [a][..0] == [] && [a, b][..1] == [a];
  }

  /** The number parser on literal texts: a length, space and sign, a negative number, a prefix. */
  lemma {:induction false} NumberExamples(length: string, signed: string, negative: string, prefixed: string)
    requires length == "12" && signed == " +7;" && negative == "-1" && prefixed == "0x1F"
    ensures ScanUnsigned(length) == Some(12) && ScanUnsigned(signed) == Some(7)
    ensures ScanUnsigned(negative) == Some(0xFFFF_FFFF) && StrToUlong(prefixed, 16) == (31, 4)
  {
    Twelve(length);
    SpaceAndSign(signed);
    MinusOne(negative);
    Prefixed(prefixed);
  }

  lemma {:induction false} Twelve(s: string)
    requires s == "12"
    ensures ScanUnsigned(s) == Some(12)
  {
    NumberOfTwo('1', '2', 10);
    NumberInParts(s, "", "", "", ['1', '2'], "", 10);
  }

  lemma {:induction false} SpaceAndSign(s: string)
    requires s == " +7;"
    ensures ScanUnsigned(s) == Some(7)
  {
    NumberOfTwo('7', '7', 10);
    NumberInParts(s, " ", "+", "", ['7'], ";", 10);
  }

  lemma {:induction false} MinusOne(s: string)
    requires s == "-1"
    ensures ScanUnsigned(s) == Some(0xFFFF_FFFF)
  {
    NumberOfTwo('1', '1', 10);
    NumberInParts(s, "", "-", "", ['1'], "", 10);
  }

  lemma {:induction false} Prefixed(s: string)
    requires s == "0x1F"
    ensures StrToUlong(s, 16) == (31, 4)
  {
    NumberOfTwo('1', 'F', 16);
    NumberInParts(s, "", "", "0x", ['1', 'F'], "", 16);
  }

  /** No number at all. */
  lemma {:induction false} NoNumber(s: string, base: nat)
    requires base == 10 || base == 16
    requires forall i :: 0 <= i < |s| ==> DigitValue(s[i]) >= base
    ensures StrToUlong(s, base) == (0, 0)
  {
  }

  // ---------------------------------------------------------------- refused messages

  lemma {:induction false} FeedRefusedLine(cb: Callbacks, c: Config, line: string, rest: string)
    requires c.state != ST_DATA && '\n' !in line && ProcessLine(cb, c, TrimRight(line)) == (c, Complete(HE_PROTOCOL))
    ensures Feed(cb, Running(c, ""), line + "\n" + rest) == Done(HE_PROTOCOL, c.out, rest)
  {
    FeedLine(cb, c, line, rest);
    FeedDone(cb, HE_PROTOCOL, c.out, [], rest);
    assert [] + rest == rest;
  }

  /** A header line without a colon. */
  lemma {:induction false} HeaderNeedsColon(cb: Callbacks, c: Config, line: string, rest: string)
    requires c.state == ST_HEADERS && '\n' !in line && ':' !in line && TrimRight(line) != ""
    ensures Feed(cb, Running(c, ""), line + "\n" + rest) == Done(HE_PROTOCOL, c.out, rest)
  {
    TrimmedIsPrefix(line);
    FeedRefusedLine(cb, c, line, rest);
  }

  lemma {:induction false} TrimmedIsPrefix(s: string)
    ensures TrimRight(s) <= s
  {
    if s != [] && IsSpace(s[|s| - 1]) {
      TrimmedIsPrefix(s[..|s| - 1]);
      assert TrimRight(s) <= s[..|s| - 1] <= s;
    }
  }

  lemma {:induction false} HeaderIsRefused(cb: Callbacks, c: Config, h: Header, rest: string)
    requires c.state == ST_HEADERS && Printable(h) && ApplyHeader(c, h) == None
    ensures Feed(cb, Running(c, ""), h.0 + ": " + h.1 + "\r\n" + rest) == Done(HE_PROTOCOL, c.out, rest)
  {
    HeaderTextIsRefused(cb, c, h);
    FeedRefusedHeader(cb, c, h, rest);
    assert HeaderLine(h) == h.0 + ": " + h.1 + "\r\n";
  }

  lemma {:induction false} HeaderTextIsRefused(cb: Callbacks, c: Config, h: Header)
    requires c.state == ST_HEADERS && Printable(h) && ApplyHeader(c, h) == None
    ensures ProcessLine(cb, c, HeaderText(h)) == (c, Complete(HE_PROTOCOL))
  {
    HeaderTextSplits(h);
  }

  lemma {:induction false} FeedRefusedHeader(cb: Callbacks, c: Config, h: Header, rest: string)
    requires c.state != ST_DATA && Printable(h) && ProcessLine(cb, c, HeaderText(h)) == (c, Complete(HE_PROTOCOL))
    ensures Feed(cb, Running(c, ""), HeaderLine(h) + rest) == Done(HE_PROTOCOL, c.out, rest)
  {
    var l := h.0 + [':', ' '] + h.1 + ['\r'];
    assert HeaderLine(h) + rest == l + ['\n'] + rest;
    HeaderLineTrims(h);
    FeedRefusedLine(cb, c, l, rest);
  }

  /** A length that is not a number. */
  lemma {:induction false} LengthIsRefused(cb: Callbacks, c: Config, name: string, value: string, rest: string)
    requires c.state == ST_HEADERS && Printable((name, value)) && EqualsIgnoringCase(name, "content-length")
    requires forall i :: 0 <= i < |value| ==> value[i] !in "0123456789"
    ensures Feed(cb, Running(c, ""), name + ": " + value + "\r\n" + rest) == Done(HE_PROTOCOL, c.out, rest)
  {
    NameInLowerCase(name);
    forall i | 0 <= i < |value| ensures DigitValue(value[i]) >= 10 { DecimalDigitsAre(value[i]); }
    NoNumber(value, 10);
    HeaderIsRefused(cb, c, (name, value), rest);
  }

  /** A coding that is neither of the two known ones. */
  lemma {:induction false} CodingIsRefused(cb: Callbacks, c: Config, name: string, value: string, rest: string)
    requires c.state == ST_HEADERS && Printable((name, value)) && EqualsIgnoringCase(name, "transfer-encoding")
    requires !EqualsIgnoringCase(value, "chunked") && !EqualsIgnoringCase(value, "identity")
    ensures Feed(cb, Running(c, ""), name + ": " + value + "\r\n" + rest) == Done(HE_PROTOCOL, c.out, rest)
  {
    NameInLowerCase(name);
    HeaderIsRefused(cb, c, (name, value), rest);
  }

  lemma {:induction false} DecimalDigitsAre(c: char)
    ensures DigitValue(c) < 10 <==> c in "0123456789"
  {
    if DigitValue(c) < 10 { assert c == "0123456789"[DigitValue(c)]; }
  }

  /** The names of the two headers are compared without regard to case. */
  lemma {:induction false} NameInLowerCase(name: string)
    ensures EqualsIgnoringCase(name, "content-length") <==> EqualsIgnoringCase(name, "Content-Length")
    ensures EqualsIgnoringCase(name, "transfer-encoding") <==> EqualsIgnoringCase(name, "Transfer-Encoding")
    ensures EqualsIgnoringCase(name, "content-length") ==> !EqualsIgnoringCase(name, "transfer-encoding")
  {
    assert EqualsIgnoringCase("content-length", "Content-Length");
    assert EqualsIgnoringCase("transfer-encoding", "Transfer-Encoding");
  }

  /** A chunk size that is missing, or does not end in a hexadecimal digit. */
  lemma {:induction false} ChunkSizeIsRefused(cb: Callbacks, c: Config, line: string, rest: string)
    requires c.state == ST_CHUNKSIZE && '\n' !in line
    requires var t := TrimRight(line); t == "" || t[|t| - 1] !in "0123456789abcdefABCDEF"
    ensures var m := Feed(cb, Running(c, ""), line + "\n" + rest);
      m.Done? && m.error == HE_PROTOCOL && m.out == c.out && m.leftover == rest
  {
    var t := TrimRight(line);
    if t != "" {
      HexDigitsAre(t[|t| - 1]);
      UsedEndsInDigit(t, 16);
    }
    var (c', r) := ProcessLine(cb, c, t);
    FeedLine(cb, c, line, rest);
    FeedDone(cb, HE_PROTOCOL, c'.out, [], rest);
    assert [] + rest == rest;
  }

  lemma {:induction false} UsedEndsInDigit(s: string, base: nat)
    requires base == 10 || base == 16
    ensures StrToUlong(s, base).1 > 0 ==> DigitValue(s[StrToUlong(s, base).1 - 1]) < base
  {
    forall k | 0 <= k <= |s| ensures forall i :: k <= i < k + DigitRun(s[k..], base) ==> DigitValue(s[i]) < base {
      RunIsDigits(s[k..], base);
      forall i | k <= i < k + DigitRun(s[k..], base) ensures DigitValue(s[i]) < base { assert s[i] == s[k..][i - k]; }
    }
  }

  lemma {:induction false} RunIsDigits(s: string, base: nat)
    ensures forall i :: 0 <= i < DigitRun(s, base) ==> DigitValue(s[i]) < base
  {
    if s != [] && DigitValue(s[0]) < base {
      RunIsDigits(s[1..], base);
      forall i | 0 < i < DigitRun(s, base) ensures DigitValue(s[i]) < base { assert s[i] == s[1..][i - 1]; }
    }
  }

  /** Anything but an empty line behind a chunk. */
  lemma {:induction false} ChunkEndIsRefused(cb: Callbacks, c: Config, line: string, rest: string)
    requires c.state == ST_CHUNKTERM && '\n' !in line && TrimRight(line) != ""
    ensures Feed(cb, Running(c, ""), line + "\n" + rest) == Done(HE_PROTOCOL, c.out, rest)
  {
    FeedRefusedLine(cb, c, line, rest);
  }

  /** Trailer lines are skipped, up to the empty line that ends the message. */
  lemma {:induction false} TrailersAreSkipped(cb: Callbacks, c: Config, line: string, rest: string)
    requires c.state == ST_TRAILERS && '\n' !in line
    ensures Feed(cb, Running(c, ""), line + "\n" + rest)
         == if TrimRight(line) == "" then Done(HE_NONE, c.out, rest) else Feed(cb, Running(c, ""), rest)
  {
    FeedLine(cb, c, line, rest);
    if TrimRight(line) == "" {
      FeedDone(cb, HE_NONE, c.out, [], rest);
      assert [] + rest == rest;
    } else {
      FeedSettled(cb, Running(c, []), rest);
    }
  }

  /** Without a framing header the body goes on until the stream ends. */
  lemma {:induction false} MessageOfUnknownLength(cb: Callbacks, leader: string, headers: seq<Header>, body: string)
    requires Plain(cb, leader, headers)
    requires cb.headerComplete(Output([leader], headers, ""), false, SIZE_UNKNOWN) == (SIZE_UNKNOWN, HE_NONE)
    ensures Feed(cb, Running(InitialConfig, []), leader + "\r\n" + HeaderLines(headers) + "\r\n" + body)
         == Running(Config(ST_DATA, false, SIZE_UNKNOWN, Output([leader], headers, body)), "")
  {
    var c0 := AfterLeader.(out := Output([leader], [], []));
    NeutralHeaders(c0, headers);
    assert [] + headers == headers;
    var c := AfterLeader.(out := Output([leader], headers, ""));
    FeedPreamble(cb, leader, headers, c, body);
    FeedBody(cb, BehindHeaders(cb, c), body, []);
    assert body + [] == body && "" + body == body;
  }
}
