/** The receive side of HttpBase: a 32K buffer between the network and the parser. Over whole runs
    the delivered message depends only on the characters received, not on how reads, blocked sinks
    and returns to the event loop cut them up. */
module HttpReceiving {
  import opened Common
  import opened HttpMachine
  import opened HttpParsing

  const MAX_READ_COUNT: nat := 20

  // ---------------------------------------------------------------- any cutting of the input

  /** Presents the pieces to successive calls of Process, each behind the tail that the call before
      left unprocessed, with a sink that accepts everything. The outcome is a function of the
      concatenation alone. */
  method ProcessPieces(callbacks: Callbacks, pieces: seq<string>) returns (outcome: Machine)
    ensures outcome == Feed(callbacks, Running(InitialConfig, []), Concat(pieces))
  {
    var parser := new HttpParser(callbacks, true);
    var tail, i := "", 0;
    WholeIsSplit(pieces, 0);
    while i < |pieces|
      invariant 0 <= i <= |pieces| && parser.callbacks == callbacks && parser.accepting
      invariant Feed(callbacks, Running(parser.Current(), []), tail) == Running(parser.Current(), tail)
      invariant Feed(callbacks, Running(InitialConfig, []), Concat(pieces))
             == Feed(callbacks, Running(parser.Current(), []), tail + Concat(pieces[i..]))
    {
      ghost var before, rest := parser.Current(), Concat(pieces[i + 1..]);
      NextPiece(pieces, i, tail);
      tail := tail + pieces[i];
      FeedConcat(callbacks, Running(before, []), tail, rest);
      var result, processed, error, sinkFailed := parser.Process(tail);
      tail := tail[processed..];
      if result == PR_COMPLETE {
        FeedDone(callbacks, error, parser.output, tail, rest);
        return Done(error, parser.output, tail + Concat(pieces[i + 1..]));
      }
      FeedConcat(callbacks, Running(parser.Current(), []), tail, rest);
      i := i + 1;
    }
    assert tail + Concat(pieces[i..]) == tail;
    return Running(parser.Current(), tail);
  }

  lemma {:induction false} WholeIsSplit(pieces: seq<string>, i: nat)
    requires i == 0
    ensures "" + Concat(pieces[i..]) == Concat(pieces)
  {
    assert pieces[0..] == pieces;
  }

  lemma {:induction false} NextPiece(pieces: seq<string>, i: nat, tail: string)
    requires i < |pieces|
    ensures tail + Concat(pieces[i..]) == (tail + pieces[i]) + Concat(pieces[i + 1..])
  {
    assert pieces[i..][1..] == pieces[i + 1..];
  }

  /** Any two ways of cutting the same input into calls give the same leader, headers, body,
      completion, error and left-over characters; and they complete exactly when the input holds a
      complete message. */
  method FragmentationIsInvisible(callbacks: Callbacks, pieces: seq<string>, other: seq<string>)
    returns (one: Machine, two: Machine)
    requires Concat(pieces) == Concat(other)
    ensures one == two
    ensures one.Done? <==> Feed(callbacks, Running(InitialConfig, []), Concat(pieces)).Done?
  {
    one := ProcessPieces(callbacks, pieces);
    two := ProcessPieces(callbacks, other);
  }

  // ---------------------------------------------------------------- the receive loop

  lemma {:induction false} FeedOpenBody(cb: Callbacks, c: Config, data: string)
    requires c.state == ST_DATA && c.dataSize == SIZE_UNKNOWN
    ensures Feed(cb, Running(c, []), data) == Running(AddBody(c, data), [])
  {
    FeedBody(cb, c, data, []);
    assert data + [] == data;
  }

  predicate IsOpen(c: Config) { c.state == ST_DATA && c.dataSize == SIZE_UNKNOWN }

  predicate IsOpenBody(m: Machine) { m.Running? && IsOpen(m.config) }

  /** What a read comes to: data, nothing yet, or the end of the stream with an error code. Code 0 is a
      clean end. */
  datatype NetworkAnswer = Delivered | Blocked | Ended(code: int)

  function AnswerOf(result: StreamResult, error: int): NetworkAnswer {
    match result
    case SR_SUCCESS => Delivered
    case SR_BLOCK => Blocked
    case SR_EOS => Ended(0)
    case SR_ERROR => Ended(error)
  }

  /** EACCES, for which socket.h defines SOCKET_EACCES. */
  const SOCKET_EACCES: int := 13
  const SEC_E_CERT_EXPIRED: int := -2146893016

  class HttpReceiver {
    const parser: HttpParser
    const buffer: array<char>
    var len: nat
    /** Everything read from the network since the message began. */
    ghost var received: string
    /** The answers of the network so far. */
    ghost var readAnswers: seq<NetworkAnswer>

    ghost predicate Valid()
      reads this, parser, buffer
    {
      buffer.Length == BUFFER_SIZE && len <= BUFFER_SIZE
    }

    ghost function Buffered(): string
      requires Valid()
      reads this, parser, buffer
    {
      buffer[..len]
    }

    /** The message is still being read: the buffered tail and the parser state together stand for
        everything received. */
    ghost predicate InStep()
      requires Valid()
      reads this, parser, buffer
    {
      Feed(parser.callbacks, Running(parser.Current(), []), Buffered())
        == Feed(parser.callbacks, Running(InitialConfig, []), received)
    }

    /** Nothing that is buffered can be processed without more data. */
    ghost predicate Waiting()
      requires Valid()
      reads this, parser, buffer
    {
      && (if parser.state == ST_DATA then len == 0 else '\n' !in Buffered())
      && Feed(parser.callbacks, Running(parser.Current(), []), Buffered()) == Running(parser.Current(), Buffered())
    }

    constructor (callbacks: Callbacks, accepting: bool)
      ensures Valid() && InStep() && received == "" && Buffered() == ""
      ensures parser.callbacks == callbacks && parser.accepting == accepting && parser.Current() == InitialConfig
      ensures buffer.Length == 32 * 1024
      ensures fresh(parser) && fresh(buffer)
    {
      parser := new HttpParser(callbacks, accepting);
      buffer := new char[BUFFER_SIZE](i => ' ');
      len, received, readAnswers := 0, "", [];
    }

    /** The network: it delivers up to what fits, or blocks, ends or fails with any code. */
    method Read() returns (result: StreamResult, error: int)
      requires Valid() && InStep() && len < BUFFER_SIZE
      modifies this, buffer
      ensures Valid() && InStep() && readAnswers == old(readAnswers) + [AnswerOf(result, error)]
      ensures old(received) <= received && |received| - |old(received)| == len - old(len)
      ensures len >= old(len) && (result != SR_SUCCESS ==> len == old(len))
      ensures buffer[..old(len)] == old(buffer[..len]) && Buffered() == old(Buffered()) + received[|old(received)|..]
    {
      result, error := *, *;
      readAnswers := readAnswers + [AnswerOf(result, error)];
      if result == SR_SUCCESS {
        ghost var c, b := parser.Current(), Buffered();
        var data: string :| |data| <= BUFFER_SIZE - len;
        forall i | 0 <= i < |data| {
          buffer[len + i] := data[i];
        }
        FeedConcat(parser.callbacks, Running(c, []), b, data);
        FeedConcat(parser.callbacks, Running(InitialConfig, []), received, data);
        len := len + |data|;
        received := received + data;
        assert Buffered() == b + data && parser.Current() == c;
      }
    }

    /** The stream ended, cleanly with code 0 or not. No error means that everything received is a body
        that only the end of the stream can complete; and it means exactly that for a clean end when
        nothing received is left to be processed. Lines 479 to 496. */
    method HandleStreamClose(error: int) returns (e: HttpError)
      requires Valid() && InStep()
      ensures e == HE_NONE <==> error == 0 && parser.IsValidEndOfInput()
      ensures e in {HE_NONE, HE_DISCONNECTED} <==> error == 0
      ensures e == HE_NONE ==> EndsWhole(parser.Current())
      ensures error == 0 && Waiting() ==>
        (e == HE_NONE <==> IsOpenBody(Feed(parser.callbacks, Running(InitialConfig, []), received)))
      ensures e in {HE_NONE, HE_DISCONNECTED, HE_AUTH, HE_CERTIFICATE_EXPIRED, HE_SOCKET_ERROR}
      ensures e == HE_AUTH <==> error == 13
      ensures e == HE_CERTIFICATE_EXPIRED <==> error == -2146893016
    {
      if error == 0 {
        if parser.IsValidEndOfInput() {
          FeedOpenBody(parser.callbacks, parser.Current(), Buffered());
          return HE_NONE;
        } else {
          return HE_DISCONNECTED;
        }
      } else if error == SOCKET_EACCES {
        return HE_AUTH;
      } else if error == SEC_E_CERT_EXPIRED {
        return HE_CERTIFICATE_EXPIRED;
      }
      return HE_SOCKET_ERROR;
    }

    /** One call of Process on the buffer, lines 556 to 561. */
    method ProcessBuffered() returns (result: ProcessResult, error: HttpError, ghost sinkFailed: bool)
      requires Valid() && InStep()
      modifies this`len, buffer, parser
      ensures Valid() && old(parser.answers) <= parser.answers
      ensures result != PR_COMPLETE || sinkFailed ==> InStep()
      ensures result == PR_CONTINUE ==> Waiting()
      ensures result == PR_BLOCK ==> Answered(old(parser.answers), parser.answers, PR_BLOCK)
      ensures sinkFailed ==> error == HE_STREAM && Answered(old(parser.answers), parser.answers, PR_COMPLETE)
      ensures result == PR_COMPLETE && !sinkFailed ==>
        Feed(parser.callbacks, Running(InitialConfig, []), received) == Done(error, parser.output, Buffered())
      ensures parser.accepting ==> result != PR_BLOCK && !sinkFailed
      ensures sinkFailed ==> result == PR_COMPLETE
    {
      var processed;
      result, processed, error, sinkFailed := parser.Process(buffer[..len]);
      Discard(processed);
    }

    /** Removes the processed characters from the front of the buffer, lines 560 and 561. */
    method Discard(processed: nat)
      requires Valid() && processed <= len
      modifies this`len, buffer
      ensures Valid() && Buffered() == old(Buffered())[processed..]
    {
      forall i | 0 <= i < len - processed {
        buffer[i] := buffer[processed + i];
      }
      len := len - processed;
    }

    /** Reading before one call of Process, lines 515 to 548. It stops the loop when the network has
        nothing that is needed, when the stream ends, and when a full buffer needs more. */
    method ReadMore(needed: bool) returns (stopped: bool, complete: bool, error: HttpError, ghost how: Ending)
      requires Valid() && InStep() && (needed ==> Waiting())
      modifies this, buffer
      ensures Valid() && InStep() && old(received) <= received && old(readAnswers) <= readAnswers
      ensures !stopped && needed ==> |readAnswers| == |old(readAnswers)| + 1
      ensures stopped ==> how in {NeedsMore, ByClose, ByOverflow} && (complete <==> how != NeedsMore)
      ensures stopped ==> Buffered() == old(Buffered()) && received == old(received)
      ensures stopped ==> Backed(how, error, old(readAnswers), parser.answers)
    {
      if len < BUFFER_SIZE {
        var readResult, readError := Read();
        if readResult == SR_BLOCK && needed {
          return true, false, HE_NONE, NeedsMore;
        }
        if readResult == SR_EOS || readResult == SR_ERROR {
          error := HandleStreamClose(if readResult == SR_EOS then 0 else readError);
          return true, true, error, ByClose;
        }
      } else if needed {
        return true, true, HE_OVERFLOW, ByOverflow;
      }
      return false, false, HE_NONE, NeedsMore;
    }

    /** Everything received is the message of this state, with what is still buffered as the end of its
        body. */
    ghost predicate EndsWhole(c: Config)
      requires Valid() && IsOpen(c)
      reads this, parser, buffer
    {
      Feed(parser.callbacks, Running(InitialConfig, []), received) == Running(AddBody(c, Buffered()), [])
    }

    /** Why the loop stopped. Each reason is backed by the last answer of the network or of the sink. */
    ghost predicate Backed(how: Ending, error: HttpError, readsBefore: seq<NetworkAnswer>,
                           answersBefore: seq<ProcessResult>)
      requires Valid()
      reads this, parser, buffer
    {
      match how
      // A finished message is the one that everything received stands for.
      case ByParser =>
        Feed(parser.callbacks, Running(InitialConfig, []), received) == Done(error, parser.output, Buffered())
      case BySink => InStep() && error == HE_STREAM && Answered(answersBefore, parser.answers, PR_COMPLETE)
      case Stalled => InStep() && Answered(answersBefore, parser.answers, PR_BLOCK)
      // The loop waits for the network, or takes a break, only when nothing received is left to be
      // processed.
      case NeedsMore => InStep() && Waiting() && Answered(readsBefore, readAnswers, Blocked)
      case Starved => InStep() && Waiting() && |readAnswers| >= |readsBefore| + 20
      case ByOverflow =>
        InStep() && Waiting() && error == HE_OVERFLOW && len == 32 * 1024
      case ByClose =>
        && InStep() && readsBefore < readAnswers && readAnswers[|readAnswers| - 1].Ended?
        && var code := readAnswers[|readAnswers| - 1].code;
        && (error in {HE_NONE, HE_DISCONNECTED} <==> code == 0) && (error == HE_AUTH <==> code == 13)
        && (error == HE_CERTIFICATE_EXPIRED <==> code == -2146893016)
        && (error == HE_SOCKET_ERROR <==> code !in {0, 13, -2146893016})
        && (error == HE_NONE ==> IsOpen(parser.Current()) && EndsWhole(parser.Current()))
    }

    /** Returns whether the message is over, and why the loop stopped. */
    method DoReceiveLoop() returns (complete: bool, error: HttpError, ghost how: Ending)
      requires Valid() && InStep()
      modifies this, buffer, parser
      ensures Valid() && old(received) <= received
      ensures old(readAnswers) <= readAnswers && old(parser.answers) <= parser.answers
      ensures Backed(how, error, old(readAnswers), old(parser.answers))
      ensures complete <==> how in {ByParser, BySink, ByClose, ByOverflow}
      // A clean close delivers everything, unless the call began with data that a sink had refused
      // and ended before that was presented again.
      ensures how == ByClose && error == HE_NONE ==>
        (Buffered() == [] || (Buffered() == old(Buffered()) && received == old(received)))
      ensures parser.accepting ==> how !in {Stalled, BySink}
    {
      var loopCount := 0;
      var processRequiresMoreData := false;
      while true
        invariant Valid() && InStep() && old(received) <= received && loopCount <= MAX_READ_COUNT
        invariant old(readAnswers) <= readAnswers && old(parser.answers) <= parser.answers
        invariant |readAnswers| + 1 >= |old(readAnswers)| + loopCount
        invariant processRequiresMoreData ==> Waiting()
        invariant !processRequiresMoreData ==>
          loopCount == 0 && Buffered() == old(Buffered()) && received == old(received)
        decreases MAX_READ_COUNT - loopCount
      {
        var stopped;
        stopped, complete, error, how := ReceiveOnce(processRequiresMoreData);
        if stopped {
          return complete, error, how;
        }
        processRequiresMoreData := true;
        loopCount := loopCount + 1;
        if loopCount > MAX_READ_COUNT {
          break;
        }
      }
      return false, HE_NONE, Starved;
    }

    /** One round of the loop, lines 515 to 576. */
    method ReceiveOnce(needed: bool) returns (stopped: bool, complete: bool, error: HttpError, ghost how: Ending)
      requires Valid() && InStep() && (needed ==> Waiting())
      modifies this, buffer, parser
      ensures Valid() && old(received) <= received
      ensures old(readAnswers) <= readAnswers && old(parser.answers) <= parser.answers
      ensures !stopped ==> InStep() && Waiting() && (needed ==> |readAnswers| == |old(readAnswers)| + 1)
      ensures stopped ==> Backed(how, error, old(readAnswers), old(parser.answers)) && how != Starved
      ensures stopped ==> (complete <==> how in {ByParser, BySink, ByClose, ByOverflow})
      ensures stopped && how == ByClose ==> Buffered() == old(Buffered()) && received == old(received)
      ensures stopped && parser.accepting ==> how !in {Stalled, BySink}
    {
      stopped, complete, error, how := ReadMore(needed);
      if stopped {
        return;
      }
      var result;
      ghost var sinkFailed;
      result, error, sinkFailed := ProcessBuffered();
      match result {
        case PR_CONTINUE => return false, false, HE_NONE, Starved;
        case PR_BLOCK => return true, false, HE_NONE, Stalled;
        case PR_COMPLETE => return true, true, error, if sinkFailed then BySink else ByParser;
      }
    }
  }

  datatype Ending = ByParser | BySink | ByClose | ByOverflow | NeedsMore | Stalled | Starved

  /** Callbacks that accept every leader and every end of headers. */
  const LENIENT: Callbacks := Callbacks(s => HE_NONE, (out, chunked, size) => (size, HE_NONE))

  lemma {:induction false} LenientStart(c: Config, rest: string)
    requires c == InitialConfig.(state := ST_DATA, out := Output([""], [], ""))
    ensures var afterLeader := InitialConfig.(state := ST_HEADERS, out := Output([""], [], ""));
      && HttpMachine.ProcessLine(LENIENT, InitialConfig, "") == (afterLeader, Continue)
      && HttpMachine.ProcessLine(LENIENT, afterLeader, "") == (c, Continue)
    ensures Feed(LENIENT, Running(InitialConfig, []), "\n\n" + rest) == Feed(LENIENT, Running(c, []), rest)
  {
    var afterLeader := InitialConfig.(state := ST_HEADERS, out := Output([""], [], ""));
    assert TrimRight("") == "";
    assert [] + [""] == [""];
    FeedLine(LENIENT, InitialConfig, "", "\n" + rest);
    FeedLine(LENIENT, afterLeader, "", rest);
    assert "" + ['\n'] + ("\n" + rest) == "\n\n" + rest && "" + ['\n'] + rest == "\n" + rest;
  }

  /** The empty leader, no headers and the body x were received, the sink refused the x, and the
      stream ends cleanly: the message is over without error, and the x was not delivered. The state
      before the end is set up directly. */
  method LostTail() returns (receiver: HttpReceiver, error: HttpError)
    ensures receiver.Valid() && receiver.InStep() && receiver.received == "\n\nx" && receiver.Buffered() == "x"
    ensures error == HE_NONE && receiver.parser.output.body == ""
    ensures var m := Feed(receiver.parser.callbacks, Running(InitialConfig, []), receiver.received);
      IsOpenBody(m) && m.config.out.body == "x"
  {
    receiver := new HttpReceiver(LENIENT, false);
    var parser := receiver.parser;
    LenientStart(InitialConfig.(state := ST_DATA, out := Output([""], [], "")), "x");
    var result, e := parser.ProcessLine("");
    result, e := parser.ProcessLine("");
    receiver.buffer[0], receiver.len, receiver.received := 'x', 1, "\n\nx";
    assert receiver.Buffered() == "x" && "\n\n" + "x" == "\n\nx";
    error := receiver.HandleStreamClose(0);
  }
}
