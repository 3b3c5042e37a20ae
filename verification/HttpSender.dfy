/** The send side of HttpBase: flush_data moves a message through a 32K buffer to the network, with
    partial writes, a document that blocks, and headers that may not fit. */
module HttpSending {
  import opened Common
  import opened HttpMachine
  import opened HttpParsing
  import opened HttpWire
  import opened HttpFraming

  /** The source document: each read yields some of what is left, or blocks, or fails. */
  class Document {
    var remaining: string
    /** What the reads answered so far. */
    ghost var answers: seq<StreamResult>

    constructor (text: string)
      ensures remaining == text && answers == []
    {
      remaining, answers := text, [];
    }

    method Read(capacity: nat) returns (result: StreamResult, data: string)
      requires capacity > 0
      modifies this
      ensures answers == old(answers) + [result]
      ensures result == SR_SUCCESS ==> 1 <= |data| <= capacity
      ensures old(remaining) == data + remaining && (result != SR_SUCCESS ==> data == [])
      ensures result == SR_EOS ==> remaining == []
    {
      data := [];
      result := *;
      if result == SR_SUCCESS && remaining != [] {
        var n :| 1 <= n <= capacity && n <= |remaining|;
        data := remaining[..n];
        remaining := remaining[n..];
      } else if result == SR_SUCCESS || (result == SR_EOS && remaining != []) {
        result := SR_BLOCK;
      }
      answers := answers + [result];
    }
  }

  /** printf stops at a NUL character. */
  function UpToNul(s: string): string {
    if s == [] || s[0] == '\0' then [] else [s[0]] + UpToNul(s[1..])
  }

  function Printed(h: Header): Header { (UpToNul(h.0), UpToNul(h.1)) }

  /** A header is dropped when its line alone would not leave room in an empty buffer. */
  predicate Fits(h: Header) { |HeaderLine(Printed(h))| < BUFFER_SIZE - 3 }

  /** The headers as they are sent: printed, and without those that do not fit. */
  function SentHeaders(headers: seq<Header>): (r: seq<Header>)
    ensures |r| <= |headers|
  {
    if headers == [] then []
    else
      var h := headers[|headers| - 1];
      SentHeaders(headers[..|headers| - 1]) + if Fits(h) then [Printed(h)] else []
  }

  /** The buffer holds 32 kilobytes, of which three stay free for the end of the headers. */
  lemma {:induction false} SentOrDropped(headers: seq<Header>, h: Header)
    ensures SentHeaders(headers + [h]) == SentHeaders(headers)
      + if |Printed(h).0| + |Printed(h).1| + 4 < 32 * 1024 - 3 then [Printed(h)] else []
  {
    assert (headers + [h])[..|headers|] == headers;
  }

  /** The headers are sent as they are exactly when all of them fit and none contains a NUL. */
  lemma {:induction false} HeadersAreSentUnchanged(headers: seq<Header>)
    ensures SentHeaders(headers) == headers <==>
      forall h :: h in headers ==> |h.0| + |h.1| + 4 < 32 * 1024 - 3 && '\0' !in h.0 && '\0' !in h.1
    decreases |headers|
  {
    if headers == [] {
    } else {
      var n := |headers| - 1;
      var front, h := headers[..n], headers[n];
      assert headers == front + [h];
      HeadersAreSentUnchanged(front);
      HeaderIsSentUnchanged(h);
      if SentHeaders(headers) == headers {
        assert |SentHeaders(front)| == n && SentHeaders(headers)[..n] == SentHeaders(front) && headers[..n] == front;
      }
      assert (forall g :: g in headers ==> SentAsIs(g)) <==> (forall g :: g in front ==> SentAsIs(g)) && SentAsIs(h);
    }
  }

  predicate SentAsIs(h: Header) { |h.0| + |h.1| + 4 < 32 * 1024 - 3 && '\0' !in h.0 && '\0' !in h.1 }

  lemma {:induction false} HeaderIsSentUnchanged(h: Header)
    ensures Fits(h) && Printed(h) == h <==> SentAsIs(h)
  {
    PrintsUnchanged(h.0);
    PrintsUnchanged(h.1);
  }

  /** What is printed of a text with a NUL. */
  lemma {:induction false} PrintsUpToNul(a: string, b: string)
    requires '\0' !in a
    ensures UpToNul(a + "\0" + b) == a
    decreases |a|
  {
    if a == [] {
      assert a + "\0" + b == "\0" + b;
    } else {
      assert (a + "\0" + b)[1..] == a[1..] + "\0" + b && a == [a[0]] + a[1..];
      PrintsUpToNul(a[1..], b);
    }
  }

  lemma {:induction false} PrintsUnchanged(s: string)
    ensures UpToNul(s) == s <==> '\0' !in s
    decreases |s|
  {
    if s == [] {
    } else {
      PrintsUnchanged(s[1..]);
      assert s == [s[0]] + s[1..];
    }
  }

  /** A header as long as the buffer is not sent at all, and of a value behind a NUL nothing is. */
  lemma {:induction false} HeaderIsLost(long: string)
    requires |long| == 32 * 1024 && '\0' !in long
    ensures SentHeaders([("A", long)]) == []
    ensures SentHeaders([("A", "b\0c")]) == [("A", "b")]
  {
    PrintsUnchanged(long);
    PrintsUnchanged("A");
    assert [("A", long)][..0] == [] && [("A", "b\0c")][..0] == [];
    assert "b\0c"[1..] == "\0c" && "\0c"[0] == '\0';
    assert UpToNul("b\0c") == ['b'] + UpToNul("\0c") == "b";
    assert UpToNul("A") == "A";
  }

  function HeaderPart(leader: string, headers: seq<Header>, queued: nat): string
    requires queued <= |headers|
  {
    leader + CRLF + HeaderLines(SentHeaders(headers[..queued]))
  }

  function Body(chunked: bool, ended: bool, pieces: seq<string>): string {
    if chunked then Chunks(pieces) + (if ended then LAST_CHUNK else []) else Concat(pieces)
  }

  /** Everything written to the buffer so far, for a given progress of the message. */
  function Emitted(leader: string, headers: seq<Header>, queued: nat, chunked: bool, ended: bool,
                   pieces: seq<string>): string
    requires queued <= |headers|
  {
    HeaderPart(leader, headers, queued) + if queued < |headers| then [] else CRLF + Body(chunked, ended, pieces)
  }

  lemma {:induction false} HeaderPartNext(leader: string, headers: seq<Header>, i: nat)
    requires i < |headers|
    ensures HeaderPart(leader, headers, i + 1)
         == HeaderPart(leader, headers, i) + if Fits(headers[i]) then HeaderLine(Printed(headers[i])) else []
  {
    assert headers[..i + 1][..i] == headers[..i];
    var kept := SentHeaders(headers[..i]);
    if Fits(headers[i]) {
      HeaderLinesAppend(kept, Printed(headers[i]));
    } else {
      assert kept + [] == kept;
    }
  }

  lemma {:induction false} EmittedWhileQueueing(leader: string, headers: seq<Header>, queued: nat, chunked: bool,
                                                ended: bool,
                                                pieces: seq<string>)
    requires queued < |headers|
    ensures Emitted(leader, headers, queued, chunked, ended, pieces) == HeaderPart(leader, headers, queued)
  {
  }

  lemma {:induction false} EmittedPiece(leader: string, headers: seq<Header>, chunked: bool, pieces: seq<string>,
                                        p: string)
    ensures Emitted(leader, headers, |headers|, chunked, false, pieces + [p])
         == Emitted(leader, headers, |headers|, chunked, false, pieces) + if chunked then Chunk(p) else p
  {
    ConcatAppend(pieces, p);
    ChunksAppend(pieces, p);
    var framed := if chunked then Chunk(p) else p;
    assert Body(chunked, false, pieces + [p]) == Body(chunked, false, pieces) + framed;
  }

  lemma {:induction false} EmittedHeaders(leader: string, headers: seq<Header>, chunked: bool)
    ensures Emitted(leader, headers, |headers|, chunked, false, []) == HeaderPart(leader, headers, |headers|) + CRLF
  {
    assert CRLF + Body(chunked, false, []) == CRLF;
  }

  lemma {:induction false} EmittedEnd(leader: string, headers: seq<Header>, pieces: seq<string>)
    ensures Emitted(leader, headers, |headers|, true, true, pieces)
         == Emitted(leader, headers, |headers|, true, false, pieces) + LAST_CHUNK
  {
  }

  lemma {:induction false} ConcatAppend(pieces: seq<string>, p: string)
    ensures Concat(pieces + [p]) == Concat(pieces) + p
    decreases |pieces|
  {
    if pieces == [] {
      assert [] + [p] == [p] && [p][1..] == [];
    } else {
      assert (pieces + [p])[1..] == pieces[1..] + [p];
      ConcatAppend(pieces[1..], p);
    }
  }

  lemma {:induction false} PieceOfText(pieces: seq<string>, data: string, remaining: string)
    ensures Concat(pieces) + (data + remaining) == Concat(pieces + [data]) + remaining
  {
    ConcatAppend(pieces, data);
    Regroup(Concat(pieces), data, remaining);
  }

  lemma {:induction false} ChunksAppend(pieces: seq<string>, p: string)
    ensures Chunks(pieces + [p]) == Chunks(pieces) + Chunk(p)
    decreases |pieces|
  {
    if pieces == [] {
      assert [] + [p] == [p] && [p][1..] == [];
    } else {
      assert (pieces + [p])[1..] == pieces[1..] + [p];
      ChunksAppend(pieces[1..], p);
    }
  }

  lemma {:induction false} HeaderLinesAppend(headers: seq<Header>, h: Header)
    ensures HeaderLines(headers + [h]) == HeaderLines(headers) + HeaderLine(h)
    decreases |headers|
  {
    if headers == [] {
      assert [] + [h] == [h] && [h][1..] == [];
    } else {
      assert (headers + [h])[1..] == headers[1..] + [h];
      HeaderLinesAppend(headers[1..], h);
    }
  }

  class HttpSender {
    const buffer: array<char>
    var len: nat
    const leader: string
    const headers: seq<Header>
    var header: nat
    const chunked: bool
    var chunkData: bool
    const document: Document
    ghost const text: string
    /** The document as it was read so far. */
    ghost var pieces: seq<string>
    /** Everything the network accepted. */
    ghost var sent: string
    /** What the network writes answered so far. */
    ghost var writes: seq<StreamResult>

    ghost predicate Valid()
      reads this, buffer, document
    {
      && buffer.Length == BUFFER_SIZE && len <= BUFFER_SIZE && header <= |headers|
      && (chunkData ==> chunked)
      && (header < |headers| ==> pieces == [] && chunkData == chunked)
      && text == Concat(pieces) + document.remaining
      && (chunked && !chunkData ==> document.remaining == [])
      && (forall i :: 0 <= i < |pieces| ==> 1 <= |pieces[i]| <= BUFFER_SIZE)
      && Pumped() == Progress()
    }

    /** What went to the network and what still waits in the buffer. */
    ghost function Pumped(): string
      requires buffer.Length == BUFFER_SIZE && len <= BUFFER_SIZE
      reads this, buffer
    {
      sent + buffer[..len]
    }

    ghost function Progress(): string
      requires header <= |headers|
      reads this
    {
      Emitted(leader, headers, header, chunked, chunked && !chunkData, pieces)
    }

    /** The state that send sets up: the leader is in the buffer, and the end of the headers too if
        there are none. The leader line is assumed to fit. */
    constructor (leader: string, headers: seq<Header>, chunked: bool, document: Document)
      requires |leader| + 4 < BUFFER_SIZE
      ensures Valid() && sent == "" && this.document == document && text == document.remaining
      ensures buffer.Length == 32 * 1024
      ensures this.leader == leader && this.headers == headers && this.chunked == chunked
    {
      this.leader, this.headers, this.chunked, this.document := leader, headers, chunked, document;
      text := document.remaining;
      pieces, sent, writes := [], "", [];
      header, chunkData := 0, chunked;
      var start := leader + CRLF + if headers == [] then CRLF else [];
      buffer := new char[BUFFER_SIZE](i requires 0 <= i < BUFFER_SIZE => if i < |start| then start[i] else ' ');
      len := |start|;
      new;
      assert buffer[..len] == start;
      assert headers[..0] == [];
    }

    /** Writes s behind the len buffered characters. */
    method Append(s: string)
      requires buffer.Length == BUFFER_SIZE && len + |s| <= BUFFER_SIZE
      modifies this`len, buffer
      ensures len == old(len) + |s| && Pumped() == old(Pumped()) + s
    {
      forall i | 0 <= i < |s| {
        buffer[len + i] := s[i];
      }
      len := len + |s|;
      assert buffer[..len] == old(buffer[..len]) + s;
    }

    /** Queues headers while they fit; true means the network must be written to first. */
    method QueueHeaders() returns (sendRequired: bool)
      requires Valid() && header < |headers|
      modifies this`len, this`header, buffer
      ensures Valid() && header >= old(header)
      ensures if sendRequired then len > 0 else header == |headers|
    {
      EmittedWhileQueueing(leader, headers, header, chunked, chunked && !chunkData, pieces);
      while header < |headers|
        invariant old(header) <= header <= |headers| && len <= BUFFER_SIZE
        invariant header == old(header) || len < BUFFER_SIZE - 3
        invariant Pumped() == HeaderPart(leader, headers, header)
      {
        var queued := QueueHeader();
        if !queued {
          EmittedWhileQueueing(leader, headers, header, chunked, chunked && !chunkData, pieces);
          return true;
        }
      }
      EndHeaders();
      return false;
    }

    /** The blank line behind the headers. */
    method EndHeaders()
      requires buffer.Length == BUFFER_SIZE && len + 2 <= BUFFER_SIZE && header == |headers| && pieces == []
      requires chunkData == chunked && Pumped() == HeaderPart(leader, headers, header)
      modifies this`len, buffer
      ensures len == old(len) + 2 && Pumped() == Progress()
    {
      EmittedHeaders(leader, headers, chunked);
      Append(CRLF);
    }

    /** Queues or discards one header; false when it has to wait for room. */
    method QueueHeader() returns (queued: bool)
      requires buffer.Length == BUFFER_SIZE && len <= BUFFER_SIZE && header < |headers|
      requires Pumped() == HeaderPart(leader, headers, header)
      modifies this`len, this`header, buffer
      ensures len <= BUFFER_SIZE && header == old(header) + if queued then 1 else 0
      ensures Pumped() == HeaderPart(leader, headers, header)
      ensures if queued then len < BUFFER_SIZE - 3 else 0 < len && unchanged(this) && unchanged(buffer)
      // A header that fits goes behind the buffered characters, and one that never will is discarded.
      ensures var line := HeaderLine(Printed(headers[old(header)]));
        if old(len) + |line| < 32 * 1024 - 3 then queued && Pumped() == old(Pumped()) + line
        else if old(len) == 0 then queued && Pumped() == old(Pumped())
        else !queued
    {
      var line := HeaderLine(Printed(headers[header]));
      HeaderPartNext(leader, headers, header);
      if len + |line| < BUFFER_SIZE - 3 {
        Append(line);
      } else if len != 0 {
        return false;
      }
      header := header + 1;
      return true;
    }

    /** Queues document data, lines 611 to 673. */
    method QueueDocument() returns (sendRequired: bool, end: DocumentEnd)
      requires Valid() && header == |headers|
      modifies this`len, this`chunkData, this`pieces, buffer, document
      ensures Valid()
      ensures |document.remaining| <= |old(document.remaining)| && (chunkData ==> old(chunkData))
      ensures end == Open && !sendRequired ==> |document.remaining| < |old(document.remaining)|
      ensures end == Open && sendRequired && chunkData == old(chunkData) ==>
        len == old(len) && document.remaining == old(document.remaining)
      ensures end == AllSent ==> len == 0 && !chunkData && document.remaining == []
      ensures old(document.answers) <= document.answers
      ensures end == Open && len == 0 ==> Answered(old(document.answers), document.answers, SR_BLOCK)
      ensures end == Failed ==> Answered(old(document.answers), document.answers, SR_ERROR)
    {
      end := Open;
      var reserve := if chunkData then len + CHUNK_DIGITS + 2 + 2 else len;
      if reserve >= BUFFER_SIZE {
        sendRequired := true;
        return;
      }
      var result, data := document.Read(BUFFER_SIZE - reserve);
      match result {
        case SR_SUCCESS =>
          PieceOfText(pieces, data, document.remaining);
          QueuePiece(data);
          sendRequired := false;
        case SR_BLOCK =>
          sendRequired := true;
        case SR_EOS =>
          if chunkData {
            QueueEnd();
          } else if len == 0 {
            end := AllSent;
          }
          sendRequired := true;
        case SR_ERROR =>
          sendRequired, end := true, Failed;
      }
    }

    /** Data from the document goes behind what is buffered, as a chunk in chunk mode. */
    method QueuePiece(data: string)
      requires buffer.Length == BUFFER_SIZE && header == |headers| && 1 <= |data|
      requires len + (if chunkData then CHUNK_DIGITS + 2 + 2 else 0) + |data| <= BUFFER_SIZE
      requires chunkData == chunked && Pumped() == Progress() && len <= BUFFER_SIZE
      modifies this`len, this`pieces, buffer
      ensures 0 < len <= BUFFER_SIZE && pieces == old(pieces) + [data] && Pumped() == Progress()
    {
      EmittedPiece(leader, headers, chunked, pieces, data);
      Append(if chunkData then Chunk(data) else data);
      pieces := pieces + [data];
    }

    /** The end of the document in chunk mode. */
    method QueueEnd()
      requires Valid() && header == |headers| && chunkData && len + 5 <= BUFFER_SIZE && document.remaining == []
      modifies this`len, this`chunkData, buffer
      ensures Valid() && !chunkData && len > 0
    {
      EmittedEnd(leader, headers, pieces);
      Append(LAST_CHUNK);
      chunkData := false;
    }

    /** The network: it accepts some of the buffer, or blocks, or fails. */
    method Write() returns (result: StreamResult)
      requires Valid() && len > 0
      modifies this`len, this`sent, this`writes, buffer
      ensures Valid() && old(sent) <= sent && writes == old(writes) + [result]
      ensures result == SR_SUCCESS ==> len < old(len)
      ensures |sent| >= |old(sent)| + if result == SR_SUCCESS then 1 else 0
      ensures result != SR_SUCCESS ==> len == old(len) && sent == old(sent)
      ensures result != SR_EOS
    {
      result := *;
      if result == SR_EOS {
        result := SR_ERROR;
      }
      writes := writes + [result];
      if result == SR_SUCCESS {
        var written :| 1 <= written <= len;
        MoveToNetwork(written);
      }
    }

    /** The first characters of the buffer are gone, the others move to its front; lines 689 and 690. */
    method MoveToNetwork(written: nat)
      requires buffer.Length == BUFFER_SIZE && written <= len <= BUFFER_SIZE
      modifies this`len, this`sent, buffer
      ensures len == old(len) - written && |sent| == |old(sent)| + written && old(sent) <= sent
      ensures Pumped() == old(Pumped())
    {
      ghost var before := buffer[..len];
      MoveToFront(written);
      len := len - written;
      sent := sent + before[..written];
      assert before[..written] + before[written..] == before;
      Regroup(old(sent), before[..written], before[written..]);
    }

    /** The memmove of line 690. */
    method MoveToFront(written: nat)
      requires written <= len <= buffer.Length
      modifies buffer
      ensures buffer[..len - written] == old(buffer[..len])[written..]
    {
      forall i | 0 <= i < len - written {
        buffer[i] := buffer[written + i];
      }
    }

    lemma {:induction false} WhenAllSent()
      requires Valid() && len == 0 && document.remaining == []
      ensures sent == Progress() && Concat(pieces) == text
    {
      WhenEmpty();
      assert Concat(pieces) + [] == Concat(pieces);
    }

    lemma {:induction false} WhenEmpty()
      requires Valid() && len == 0
      ensures sent == Progress()
    {
      assert buffer[..0] == [] && sent + [] == sent;
    }

    /** Reading and buffering before one network write; lines 606 to 682. */
    method Refill(required: bool) returns (sendRequired: bool, end: DocumentEnd)
      requires Valid()
      modifies this`len, this`header, this`chunkData, this`pieces, buffer, document
      ensures Valid()
      ensures header >= old(header) && |document.remaining| <= |old(document.remaining)|
      ensures chunkData ==> old(chunkData)
      ensures end == Open && !sendRequired ==> |document.remaining| < |old(document.remaining)| || header > old(header)
      ensures end == Open && sendRequired && header == old(header) && chunkData == old(chunkData) ==>
        len <= old(len) && document.remaining == old(document.remaining)
      ensures end == AllSent ==> len == 0 && header == |headers| && !chunkData && document.remaining == []
      ensures required ==> sendRequired && end == Open && len == old(len)
      ensures old(document.answers) <= document.answers
      ensures !required && end == Open && len == 0 ==>
        header == |headers| && Answered(old(document.answers), document.answers, SR_BLOCK)
      ensures end == Failed ==> Answered(old(document.answers), document.answers, SR_ERROR)
    {
      sendRequired, end := required, Open;
      if !sendRequired && header < |headers| {
        sendRequired := QueueHeaders();
      }
      if !sendRequired {
        sendRequired, end := QueueDocument();
      }
    }

    /** The send pump. It never loses, repeats or reorders a character, and it completes only when
        the network has accepted the whole message. It stops only when the network or the document
        has just blocked or failed; while it waits for the document everything read so far is sent. */
    method FlushData() returns (outcome: Outcome)
      requires Valid()
      modifies this`len, this`header, this`chunkData, this`pieces, this`sent, this`writes, buffer, document
      ensures Valid() && old(sent) <= sent && old(writes) <= writes && old(document.answers) <= document.answers
      ensures |sent| + Successes(old(writes)) >= |old(sent)| + Successes(writes)
      ensures outcome == WaitForNetwork ==> len > 0 && Answered(old(writes), writes, SR_BLOCK)
      ensures outcome == WaitForDocument ==> Answered(old(document.answers), document.answers, SR_BLOCK)
      ensures outcome == WaitForDocument ==> len == 0 && header == |headers| && sent == Progress()
      ensures outcome == DocumentError ==> Answered(old(document.answers), document.answers, SR_ERROR)
      ensures outcome == Closed ==> Answered(old(writes), writes, SR_ERROR)
      ensures outcome != GoOn
      ensures outcome == Finished ==> len == 0 && document.remaining == [] && !chunkData
      ensures outcome == Finished ==> header == |headers| && sent == Progress() && Concat(pieces) == text
    {
      var sendRequired := len >= BUFFER_SIZE;
      outcome := GoOn;
      while outcome == GoOn
        invariant Valid() && old(sent) <= sent && old(writes) <= writes && old(document.answers) <= document.answers
        invariant |sent| + Successes(old(writes)) >= |old(sent)| + Successes(writes)
        invariant outcome == GoOn && sendRequired ==> len > 0
        invariant Justified(outcome, old(writes), old(document.answers))
        decreases outcome == GoOn, |headers| - header, |document.remaining|, if chunkData then 1 else 0, len,
          if sendRequired then 0 else 1
      {
        outcome, sendRequired := PumpOnce(sendRequired);
      }
    }

    /** Why the pump stopped. */
    ghost predicate Justified(outcome: Outcome, writesBefore: seq<StreamResult>, answersBefore: seq<StreamResult>)
      requires buffer.Length == BUFFER_SIZE && len <= BUFFER_SIZE && header <= |headers|
      reads this, buffer, document
    {
      match outcome
      case GoOn => true
      case WaitForNetwork => len > 0 && Answered(writesBefore, writes, SR_BLOCK)
      case Closed => Answered(writesBefore, writes, SR_ERROR)
      case DocumentError => Answered(answersBefore, document.answers, SR_ERROR)
      case WaitForDocument =>
        Answered(answersBefore, document.answers, SR_BLOCK) && len == 0 && header == |headers| && sent == Progress()
      case Finished =>
        len == 0 && document.remaining == [] && !chunkData && header == |headers| && sent == Progress()
        && Concat(pieces) == text
    }

    /** One round of the pump. A round that does not stop makes the rest of the work smaller. */
    method PumpOnce(required: bool) returns (outcome: Outcome, sendRequired: bool)
      requires Valid() && (required ==> len > 0)
      modifies this`len, this`header, this`chunkData, this`pieces, this`sent, this`writes, buffer, document
      ensures Valid() && old(sent) <= sent && old(writes) <= writes && old(document.answers) <= document.answers
      ensures |sent| + Successes(old(writes)) >= |old(sent)| + Successes(writes)
      ensures Justified(outcome, old(writes), old(document.answers))
      ensures outcome == GoOn ==> !sendRequired && header >= old(header)
      ensures outcome == GoOn && header == old(header) ==>
        |document.remaining| <= |old(document.remaining)| && (chunkData ==> old(chunkData))
      ensures outcome == GoOn && header == old(header) && chunkData == old(chunkData) ==>
        |document.remaining| < |old(document.remaining)| || len < old(len)
    {
      outcome, sendRequired := FillOrStop(required);
      if outcome == GoOn {
        ghost var left, answers, inChunks, queued := document.remaining, document.answers, chunkData, header;
        outcome := WriteOnce(sendRequired);
        assert document.remaining == left && document.answers == answers && chunkData == inChunks && header == queued;
        sendRequired := false;
      }
    }

    /** The part of a round before the network write, and the reasons to stop there. */
    method FillOrStop(required: bool) returns (outcome: Outcome, sendRequired: bool)
      requires Valid() && (required ==> len > 0)
      modifies this`len, this`header, this`chunkData, this`pieces, buffer, document
      ensures Valid() && old(document.answers) <= document.answers
      ensures outcome in {GoOn, Finished, DocumentError, WaitForDocument}
      ensures Justified(outcome, writes, old(document.answers)) && (outcome == GoOn ==> len > 0)
      ensures header >= old(header) && |document.remaining| <= |old(document.remaining)|
      ensures chunkData ==> old(chunkData)
      ensures outcome == GoOn && !sendRequired ==>
        |document.remaining| < |old(document.remaining)| || header > old(header)
      ensures outcome == GoOn && sendRequired && header == old(header) && chunkData == old(chunkData) ==>
        len <= old(len) && document.remaining == old(document.remaining)
    {
      var end;
      sendRequired, end := Refill(required);
      if end == AllSent {
        WhenAllSent();
        outcome := Finished;
      } else if end == Failed {
        outcome := DocumentError;
      } else if len == 0 {
        WhenEmpty();
        outcome := WaitForDocument;
      } else {
        outcome := GoOn;
      }
    }

    /** One network write and what follows from it, lines 684 to 704. */
    method WriteOnce(sendRequired: bool) returns (outcome: Outcome)
      requires Valid() && len > 0
      modifies this`len, this`sent, this`writes, buffer
      ensures Valid() && old(sent) <= sent && old(writes) <= writes
      ensures |sent| + Successes(old(writes)) >= |old(sent)| + Successes(writes)
      ensures outcome == GoOn ==> len < old(len) || (len == old(len) && !sendRequired)
      ensures outcome == WaitForNetwork ==> len > 0 && Answered(old(writes), writes, SR_BLOCK)
      ensures outcome == Closed ==> Answered(old(writes), writes, SR_ERROR)
      ensures outcome in {GoOn, WaitForNetwork, Closed}
    {
      var result := Write();
      SuccessesAppend(old(writes), result);
      match result {
        case SR_SUCCESS => return GoOn;
        case SR_BLOCK => return if sendRequired then WaitForNetwork else GoOn;
        case _ => return Closed;
      }
    }
  }

  /** The number of writes by which characters moved. */
  function Successes(log: seq<StreamResult>): nat {
    if log == [] then 0 else Successes(log[..|log| - 1]) + if log[|log| - 1] == SR_SUCCESS then 1 else 0
  }

  lemma {:induction false} SuccessesAppend(log: seq<StreamResult>, result: StreamResult)
    ensures Successes(log + [result]) == Successes(log) + if result == SR_SUCCESS then 1 else 0
  {
    assert (log + [result])[..|log|] == log;
  }

  datatype DocumentEnd = Open | AllSent | Failed
  datatype Outcome = GoOn | Finished | WaitForNetwork | WaitForDocument | DocumentError | Closed

  /** End to end: what a finished chunked send put on the wire drives the parser to exactly the
      message, with its headers as HeadersAreSentUnchanged describes them. */
  lemma {:induction false} SentMessageReadsBack(cb: Callbacks, s: HttpSender, rest: string)
    requires s.Valid() && s.chunked && !s.chunkData && s.len == 0 && s.header == |s.headers|
    requires Acceptable(cb, s.leader, SentHeaders(s.headers))
    ensures Feed(cb, Running(InitialConfig, []), s.sent + rest)
         == Done(HE_NONE, Output([s.leader], SentHeaders(s.headers), s.text), rest)
  {
    s.WhenAllSent();
    EmittedMessage(s.leader, s.headers, s.pieces, rest);
    MessageReadsBack(cb, s.leader, SentHeaders(s.headers), s.pieces, rest);
  }

  lemma {:induction false} EmittedMessage(leader: string, headers: seq<Header>, pieces: seq<string>, rest: string)
    ensures Emitted(leader, headers, |headers|, true, true, pieces) + rest
         == Preamble(leader, SentHeaders(headers)) + (Chunks(pieces) + (LAST_CHUNK + rest))
  {
    assert headers[..|headers|] == headers;
    var front := HeaderPart(leader, headers, |headers|);
    Regroup(front, CRLF, Chunks(pieces) + LAST_CHUNK);
    Regroup(front + CRLF, Chunks(pieces) + LAST_CHUNK, rest);
    Regroup(Chunks(pieces), LAST_CHUNK, rest);
  }

  /** The wire of a finished send: leader, headers, blank line, and the text or its chunks. */
  lemma {:induction false} FinishedWire(s: HttpSender)
    requires s.Valid() && s.len == 0 && s.header == |s.headers| && s.document.remaining == []
    requires s.chunked ==> !s.chunkData
    ensures s.sent == s.leader + "\r\n" + HeaderLines(SentHeaders(s.headers)) + "\r\n"
      + if s.chunked then Chunks(s.pieces) + "0\r\n\r\n" else s.text
    ensures Concat(s.pieces) == s.text
  {
    s.WhenAllSent();
    assert s.headers[..|s.headers|] == s.headers;
    var front := HeaderPart(s.leader, s.headers, |s.headers|);
    Regroup(front, CRLF, if s.chunked then Chunks(s.pieces) + LAST_CHUNK else s.text);
  }

  /** A finished send of a text whose length is announced drives the parser to exactly the message. */
  lemma {:induction false} SentTextReadsBack(cb: Callbacks, s: HttpSender, headers: seq<Header>, rest: string)
    requires s.Valid() && s.len == 0 && s.header == |s.headers| && s.document.remaining == [] && !s.chunked
    requires Plain(cb, s.leader, headers) && |s.text| < 0x1_0000_0000
    requires var announced := headers + [("Content-Length", Decimal(|s.text|))];
      && SentHeaders(s.headers) == announced
      && cb.headerComplete(Output([s.leader], announced, ""), false, |s.text|) == (|s.text|, HE_NONE)
    ensures Feed(cb, Running(InitialConfig, []), s.sent + rest)
         == Done(HE_NONE, Output([s.leader], SentHeaders(s.headers), s.text), rest)
  {
    var n := Decimal(|s.text|);
    FinishedWire(s);
    MessageOfKnownLength(cb, s.leader, headers, s.text, rest);
    PreambleText(s.leader, headers, "Content-Length", n, s.text + rest);
    Regroup(Preamble(s.leader, SentHeaders(s.headers)), s.text, rest);
  }
}
