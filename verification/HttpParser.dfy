/** The buffered parser of httpbase.cc, HttpParser::Process, proved against the one-character
    machine. */
module HttpParsing {
  import opened Common
  import opened HttpMachine

  datatype ProcessResult = PR_CONTINUE | PR_BLOCK | PR_COMPLETE

  /** The buffer that HttpBase keeps on either side of the network. */
  const BUFFER_SIZE: nat := 32 * 1024

  class HttpParser {
    const callbacks: Callbacks
    var state: State
    var chunked: bool
    var dataSize: Size
    var output: Output
    /** The data sink and the header-complete callback never block or fail. */
    const accepting: bool
    /** What they answered so far, a block of the callback included. */
    ghost var answers: seq<ProcessResult>

    function Current(): Config
      reads this
    {
      Config(state, chunked, dataSize, output)
    }

    constructor (callbacks: Callbacks, accepting: bool)
      ensures this.callbacks == callbacks && this.accepting == accepting && Current() == InitialConfig
    {
      this.callbacks, this.accepting := callbacks, accepting;
      answers := [];
      state, chunked, dataSize := ST_LEADER, false, SIZE_UNKNOWN;
      output := Output([], [], "");
    }

    predicate IsValidEndOfInput()
      reads this
    {
      state == ST_DATA && dataSize == SIZE_UNKNOWN
    }

    /** The document sink. It takes some of the data, or blocks, or fails; which is not determined,
        unless it is accepting. */
    method ProcessData(data: string) returns (result: ProcessResult, read: nat, error: HttpError)
      requires data != []
      modifies this`output, this`answers
      ensures answers == old(answers) + [result] && (accepting ==> result == PR_CONTINUE)
      ensures result == PR_CONTINUE ==> 1 <= read <= |data| && error == HE_NONE
      ensures result == PR_CONTINUE ==> output == old(output).(body := old(output).body + data[..read])
      ensures result != PR_CONTINUE ==> output == old(output)
      ensures result == PR_COMPLETE ==> error == HE_STREAM
    {
      result := *;
      if accepting {
        result := PR_CONTINUE;
      }
      answers := answers + [result];
      read, error := 0, if result == PR_COMPLETE then HE_STREAM else HE_NONE;
      if result == PR_CONTINUE {
        read :| 1 <= read <= |data|;
        output := output.(body := output.body + data[..read]);
      }
    }

    /** A blocked header-complete callback has the effect of a finished one; only the loop stops. */
    method ProcessLine(line: string) returns (result: ProcessResult, error: HttpError)
      requires state != ST_DATA
      modifies this
      ensures Current() == HttpMachine.ProcessLine(callbacks, old(Current()), line).0
      ensures result == PR_COMPLETE <==>
        HttpMachine.ProcessLine(callbacks, old(Current()), line).1 == Complete(error)
      ensures result != PR_COMPLETE ==>
        HttpMachine.ProcessLine(callbacks, old(Current()), line).1 == Continue && error == HE_NONE
      ensures if result == PR_BLOCK then !accepting && answers == old(answers) + [PR_BLOCK] else answers == old(answers)
    {
      match state {
        case ST_LEADER =>
          state := ST_HEADERS;
          output := output.(leaders := output.leaders + [line]);
          error := callbacks.parseLeader(line);
          return if error == HE_NONE then PR_CONTINUE else PR_COMPLETE, error;
        case ST_HEADERS =>
          if |line| > 0 {
            result, error := ProcessHeaderLine(line);
            return;
          }
          state := if chunked then ST_CHUNKSIZE else ST_DATA;
          var (size, e) := callbacks.headerComplete(output, chunked, dataSize);
          dataSize := size;
          if e != HE_NONE {
            return PR_COMPLETE, e;
          }
          var blocked := *;
          if !accepting && blocked {
            answers := answers + [PR_BLOCK];
            return PR_BLOCK, HE_NONE;
          }
        case ST_CHUNKSIZE =>
          if |line| > 0 {
            var (size, used) := StrToUlong(line, 16);
            dataSize := size;
            if used != |line| {
              return PR_COMPLETE, HE_PROTOCOL;
            }
            state := if dataSize == 0 then ST_TRAILERS else ST_DATA;
          } else {
            return PR_COMPLETE, HE_PROTOCOL;
          }
        case ST_CHUNKTERM =>
          if |line| > 0 {
            return PR_COMPLETE, HE_PROTOCOL;
          } else {
            state := if chunked then ST_CHUNKSIZE else ST_DATA;
          }
        case ST_TRAILERS =>
          if |line| == 0 {
            return PR_COMPLETE, HE_NONE;
          }
      }
      return PR_CONTINUE, HE_NONE;
    }

    /** The non-empty header line, lines 136 to 169. */
    method ProcessHeaderLine(line: string) returns (result: ProcessResult, error: HttpError)
      requires state == ST_HEADERS && line != []
      modifies this
      ensures Current() == HttpMachine.ProcessLine(callbacks, old(Current()), line).0
      ensures result == PR_COMPLETE <==>
        HttpMachine.ProcessLine(callbacks, old(Current()), line).1 == Complete(error)
      ensures result != PR_COMPLETE ==> result == PR_CONTINUE && error == HE_NONE
      ensures result != PR_COMPLETE ==> HttpMachine.ProcessLine(callbacks, old(Current()), line).1 == Continue
      ensures answers == old(answers)
    {
      var colon := IndexOf(line, ':');
      if colon == None {
        return PR_COMPLETE, HE_PROTOCOL;
      }
      var name := line[..colon.value];
      var rest := line[colon.value + 1..];
      var value := TrimLeft(rest);
      if EqualsIgnoringCase(name, "Content-Length") {
        var size := ScanUnsigned(value);
        if size == None {
          return PR_COMPLETE, HE_PROTOCOL;
        }
        dataSize := size.value;
      } else if EqualsIgnoringCase(name, "Transfer-Encoding") {
        if EqualsIgnoringCase(value, "chunked") {
          chunked := true;
        } else if EqualsIgnoringCase(value, "identity") {
          chunked := false;
        } else {
          return PR_COMPLETE, HE_PROTOCOL;
        }
      }
      output := output.(headers := output.headers + [(name, value)]);
      return PR_CONTINUE, HE_NONE;
    }

    /** One call on a buffer. Whatever stops the call, feeding the rest of the buffer from the
        state reached is feeding the whole buffer from the state at the start. When the parser asks
        for more, nothing complete is left behind. */
    method Process(buffer: string)
      returns (result: ProcessResult, processed: nat, error: HttpError, ghost sinkFailed: bool)
      modifies this
      ensures processed <= |buffer|
      ensures result != PR_COMPLETE || sinkFailed ==>
        Feed(callbacks, Running(old(Current()), []), buffer)
          == Feed(callbacks, Running(Current(), []), buffer[processed..])
      ensures result == PR_COMPLETE && !sinkFailed ==>
        Feed(callbacks, Running(old(Current()), []), buffer) == Done(error, output, buffer[processed..])
      ensures sinkFailed ==> result == PR_COMPLETE && error == HE_STREAM
      ensures result == PR_CONTINUE && state != ST_DATA ==> '\n' !in buffer[processed..]
      ensures result == PR_CONTINUE && state == ST_DATA ==> processed == |buffer| && dataSize != 0
      ensures result == PR_CONTINUE ==>
        Feed(callbacks, Running(Current(), []), buffer[processed..]) == Running(Current(), buffer[processed..])
      ensures old(answers) <= answers && (accepting ==> result != PR_BLOCK && !sinkFailed)
      ensures result == PR_BLOCK ==> Answered(old(answers), answers, PR_BLOCK)
      ensures sinkFailed ==> Answered(old(answers), answers, PR_COMPLETE)
    {
      ghost var whole := Feed(callbacks, Running(Current(), []), buffer);
      processed, error, result, sinkFailed := 0, HE_NONE, PR_CONTINUE, false;
      var more := true;
      while more
        invariant processed <= |buffer| && (more ==> result == PR_CONTINUE)
        invariant sinkFailed ==> result == PR_COMPLETE && error == HE_STREAM
        invariant if result != PR_COMPLETE || sinkFailed
          then Feed(callbacks, Running(Current(), []), buffer[processed..]) == whole
          else Done(error, output, buffer[processed..]) == whole
        invariant old(answers) <= answers && (accepting ==> result != PR_BLOCK && !sinkFailed)
        invariant result == PR_BLOCK || sinkFailed ==> Answered(old(answers), answers, result)
        invariant !more && result == PR_CONTINUE ==> Incomplete(buffer[processed..])
        decreases more, |buffer| - processed, if state == ST_DATA then 1 else 0
      {
        more, result, processed, error, sinkFailed := ProcessOnce(buffer, processed);
      }
      if result == PR_CONTINUE { FeedIncomplete(callbacks, Current(), buffer[processed..]); }
    }

    /** Nothing in these characters can be processed. */
    ghost predicate Incomplete(tail: string)
      reads this
    {
      if state == ST_DATA then tail == [] && dataSize != 0 else '\n' !in tail
    }

    /** What one round of the loop comes to, from the state and the answers before it. */
    ghost predicate Advanced(before: Config, answersBefore: seq<ProcessResult>, buffer: string, start: nat,
                             more: bool, result: ProcessResult, next: nat, error: HttpError, sinkFailed: bool)
      reads this
    {
      && start <= next <= |buffer| && (more ==> result == PR_CONTINUE)
      && (more ==> next > start || (state != ST_DATA && before.state == ST_DATA))
      && (sinkFailed ==> result == PR_COMPLETE && error == HE_STREAM)
      && Feed(callbacks, Running(before, []), buffer[start..])
         == (if result != PR_COMPLETE || sinkFailed then Feed(callbacks, Running(Current(), []), buffer[next..])
             else Done(error, output, buffer[next..]))
      && answersBefore <= answers && (accepting ==> result != PR_BLOCK && !sinkFailed)
      && (result == PR_BLOCK || sinkFailed ==> Answered(answersBefore, answers, result))
      && (!more && result == PR_CONTINUE ==> Incomplete(buffer[next..]))
    }

    /** One round of the loop, lines 71 to 119. */
    method ProcessOnce(buffer: string, start: nat)
      returns (more: bool, result: ProcessResult, next: nat, error: HttpError, ghost sinkFailed: bool)
      requires start <= |buffer|
      modifies this
      ensures Advanced(old(Current()), old(answers), buffer, start, more, result, next, error, sinkFailed)
    {
      if state != ST_DATA {
        more, result, next, error, sinkFailed := NextLine(buffer, start);
      } else if dataSize == 0 {
        var finished := EndOfData(buffer[start..]);
        return !finished, if finished then PR_COMPLETE else PR_CONTINUE, start, HE_NONE, false;
      } else {
        more, result, next, error, sinkFailed := NextData(buffer, start);
      }
    }

    /** Lines 72 to 90. */
    method NextLine(buffer: string, start: nat)
      returns (more: bool, result: ProcessResult, next: nat, error: HttpError, ghost sinkFailed: bool)
      requires start <= |buffer| && state != ST_DATA
      modifies this
      ensures Advanced(old(Current()), old(answers), buffer, start, more, result, next, error, sinkFailed)
    {
      var pos := FindNewline(buffer, start);
      if pos >= |buffer| {
        return false, PR_CONTINUE, start, HE_NONE, false;
      }
      result, error := TakeLine(buffer, start, pos);
      return result == PR_CONTINUE, result, pos + 1, error, false;
    }

    /** Lines 98 to 118. */
    method NextData(buffer: string, start: nat)
      returns (more: bool, result: ProcessResult, next: nat, error: HttpError, ghost sinkFailed: bool)
      requires start <= |buffer| && state == ST_DATA && dataSize != 0
      modifies this
      ensures Advanced(old(Current()), old(answers), buffer, start, more, result, next, error, sinkFailed)
    {
      if |buffer| - start <= 0 {
        return false, PR_CONTINUE, start, HE_NONE, false;
      }
      var read;
      result, read, error := TakeData(buffer, start);
      if result != PR_CONTINUE {
        return false, result, start, error, result == PR_COMPLETE;
      }
      return true, result, start + read, error, false;
    }

    /** The line branch of the loop, lines 79 to 90. */
    method TakeLine(buffer: string, start: nat, pos: nat) returns (result: ProcessResult, error: HttpError)
      requires state != ST_DATA && start <= pos < |buffer| && buffer[pos] == '\n' && '\n' !in buffer[start..pos]
      modifies this
      ensures result != PR_COMPLETE ==> error == HE_NONE
      ensures result != PR_COMPLETE ==>
        Feed(callbacks, Running(old(Current()), []), buffer[start..])
          == Feed(callbacks, Running(Current(), []), buffer[pos + 1..])
      ensures result == PR_COMPLETE ==>
        Feed(callbacks, Running(old(Current()), []), buffer[start..]) == Done(error, output, buffer[pos + 1..])
      ensures if result == PR_BLOCK then !accepting && answers == old(answers) + [PR_BLOCK] else answers == old(answers)
    {
      var line := TrimLine(buffer[start..pos]);
      CutLine(callbacks, Current(), buffer, start, pos);
      result, error := ProcessLine(line);
      if result == PR_COMPLETE {
        FeedDone(callbacks, error, output, [], buffer[pos + 1..]);
      } else {
        FeedSettled(callbacks, Running(Current(), []), buffer[pos + 1..]);
      }
    }

    /** No data is left: lines 91 to 96. */
    method EndOfData(ghost rest: string) returns (finished: bool)
      requires state == ST_DATA && dataSize == 0
      modifies this`state
      ensures finished ==> Feed(callbacks, Running(old(Current()), []), rest) == Done(HE_NONE, output, rest)
      ensures !finished ==> state == ST_CHUNKTERM
      ensures !finished ==>
        Feed(callbacks, Running(old(Current()), []), rest) == Feed(callbacks, Running(Current(), []), rest)
    {
      FeedSettled(callbacks, Running(Current(), []), rest);
      if chunked {
        state := ST_CHUNKTERM;
        return false;
      }
      FeedDone(callbacks, HE_NONE, output, [], rest);
      return true;
    }

    /** The data branch of the loop, lines 98 to 117. */
    method TakeData(buffer: string, start: nat) returns (result: ProcessResult, read: nat, error: HttpError)
      requires state == ST_DATA && dataSize != 0 && start < |buffer|
      modifies this
      ensures result == PR_CONTINUE ==> 1 <= read && start + read <= |buffer| && error == HE_NONE
      ensures result == PR_CONTINUE ==>
        Feed(callbacks, Running(old(Current()), []), buffer[start..])
          == Feed(callbacks, Running(Current(), []), buffer[start + read..])
      ensures result == PR_CONTINUE ==> state == ST_DATA
      ensures result != PR_CONTINUE ==> Current() == old(Current())
      ensures result == PR_COMPLETE ==> error == HE_STREAM
      ensures answers == old(answers) + [result] && (accepting ==> result == PR_CONTINUE)
    {
      var available := |buffer| - start;
      if dataSize != SIZE_UNKNOWN && available > dataSize {
        available := dataSize;
      }
      ghost var before := Current();
      result, read, error := ProcessData(buffer[start..start + available]);
      if result == PR_CONTINUE {
        CutBody(callbacks, before, buffer, start, available, read);
        if dataSize != SIZE_UNKNOWN {
          dataSize := dataSize - read;
        }
      }
    }

    static method FindNewline(buffer: string, start: nat) returns (pos: nat)
      requires start <= |buffer|
      ensures start <= pos <= |buffer| && '\n' !in buffer[start..pos]
      ensures pos < |buffer| ==> buffer[pos] == '\n'
    {
      pos := start;
      while pos < |buffer| && buffer[pos] != '\n'
        invariant start <= pos <= |buffer| && '\n' !in buffer[start..pos]
      {
        pos := pos + 1;
      }
    }

    static method TrimLeft(s: string) returns (value: string)
      ensures value == s[SkipSpaces(s)..]
    {
      var i := 0;
      while i < |s| && IsSpace(s[i])
        invariant 0 <= i <= |s| && i + SkipSpaces(s[i..]) == SkipSpaces(s)
      {
        i := i + 1;
      }
      value := s[i..];
      assert i == SkipSpaces(s);
    }

    static method TrimLine(line: string) returns (trimmed: string)
      ensures trimmed == TrimRight(line)
    {
      var len := |line|;
      assert line[..len] == line;
      while len > 0 && IsSpace(line[len - 1])
        invariant 0 <= len <= |line| && TrimRight(line[..len]) == TrimRight(line)
      {
        assert line[..len][..len - 1] == line[..len - 1];
        len := len - 1;
      }
      trimmed := line[..len];
    }
  }

  /** An unfinished line, or an unfinished body without further data, is waited for as it is. */
  lemma {:induction false} FeedIncomplete(cb: Callbacks, c: Config, tail: string)
    requires if c.state == ST_DATA then tail == [] && c.dataSize != 0 else '\n' !in tail
    ensures Feed(cb, Running(c, []), tail) == Running(c, tail)
  {
    if c.state != ST_DATA {
      FeedPartOfLine(cb, c, [], tail);
      assert [] + tail == tail;
    }
  }

  lemma {:induction false} CutLine(cb: Callbacks, c: Config, buffer: string, start: nat, pos: nat)
    requires start <= pos < |buffer| && buffer[pos] == '\n' && '\n' !in buffer[start..pos]
    requires c.state != ST_DATA
    ensures Feed(cb, Running(c, []), buffer[start..])
         == Feed(cb, EndLine(cb, c, buffer[start..pos]), buffer[pos + 1..])
  {
    assert buffer[start..] == buffer[start..pos] + ['\n'] + buffer[pos + 1..];
    FeedLine(cb, c, buffer[start..pos], buffer[pos + 1..]);
  }

  lemma {:induction false} CutBody(cb: Callbacks, c: Config, buffer: string, start: nat, available: nat, read: nat)
    requires read <= available && start + available <= |buffer|
    requires c.state == ST_DATA && (c.dataSize == SIZE_UNKNOWN || available <= c.dataSize)
    ensures Feed(cb, Running(c, []), buffer[start..])
         == Feed(cb, Running(AddBody(c, buffer[start..start + available][..read]), []), buffer[start + read..])
  {
    var data := buffer[start..start + available][..read];
    assert buffer[start..] == data + buffer[start + read..];
    FeedBody(cb, c, data, buffer[start + read..]);
  }
}
