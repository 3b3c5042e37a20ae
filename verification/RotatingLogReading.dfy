/** Reading a call-session log back: which part of everything written survives, that the reader
    returns exactly that, and that sorting the file names sorts the files. */
module RotatingLogReading {
  import opened Common
  import opened RotatingLog

  // ---------------------------------------------------------------- what survives

  /** The files from the highest index down, one after the other. */
  function ReadBack(files: seq<File>): Text {
    if files == [] then []
    else ReadBack(files[1..]) + if files[0].Present? then files[0].text else []
  }

  lemma {:induction false} JoinedSplits(chunks: seq<Text>, m: nat)
    requires m <= |chunks|
    ensures Joined(chunks) == Joined(chunks[..m]) + Joined(chunks[m..])
    decreases |chunks|
  {
    if m == |chunks| {
      assert chunks[..m] == chunks && Joined(chunks[m..]) == [];
    } else {
      var n := |chunks| - 1;
      JoinedSplits(chunks[..n], m);
      assert chunks[..n][..m] == chunks[..m] && chunks[..n][m..] == chunks[m..][..n - m];
      assert chunks[m..][|chunks[m..]| - 1] == chunks[n];
    }
  }

  lemma {:induction false} JoinedLength(chunks: seq<Text>, size: nat)
    requires forall i :: 0 <= i < |chunks| ==> |chunks[i]| == size
    ensures |Joined(chunks)| == |chunks| * size
    decreases |chunks|
  {
    if chunks == [] {
    } else {
      var n := |chunks| - 1;
      JoinedLength(chunks[..n], size);
      assert (n + 1) * size == n * size + size;
    }
  }

  lemma {:induction false} ReadBackMissing(files: seq<File>)
    requires forall i :: 0 <= i < |files| ==> files[i] == Missing
    ensures ReadBack(files) == []
    decreases |files|
  {
    if files == [] {
    } else {
      ReadBackMissing(files[1..]);
    }
  }

  lemma {:induction false} JoinedSlice(first: Text, chunks: seq<Text>, a: nat, b: nat)
    requires a <= b < |chunks|
    ensures first + Joined(chunks[a..b]) + chunks[b] == first + Joined(chunks[a..b + 1])
  {
    LastOfSlice(chunks, a, b);
    assert first + Joined(chunks[a..b]) + chunks[b] == first + (Joined(chunks[a..b]) + chunks[b]);
  }

  lemma {:induction false} LastOfSlice(chunks: seq<Text>, a: nat, b: nat)
    requires a <= b < |chunks|
    ensures chunks[a..b + 1][..b - a] == chunks[a..b] && chunks[a..b + 1][b - a] == chunks[b]
  {
  }

  /** Reading from the first file down to index j, below which are newer chunks. */
  lemma {:induction false} ReadBackFrom(files: seq<File>, ring: nat, first: Text, chunks: seq<Text>, current: Text,
                                        j: nat)
    requires ring >= 2 && RingFiles(files, ring, first, chunks, current)
    requires 1 <= j <= Kept(|chunks|, ring) + 1
    ensures ReadBack(files[j..]) == first + Joined(chunks[|chunks| - Kept(|chunks|, ring)..|chunks| - j + 1])
    decreases |files| - j
  {
    var k := Kept(|chunks|, ring);
    assert files[j..][0] == files[j] && files[j..][1..] == files[j + 1..];
    if j == k + 1 {
      ReadBackMissing(files[j + 1..]);
      assert chunks[|chunks| - k..|chunks| - j + 1] == [];
      assert [] + first == first == first + [];
    } else {
      ReadBackFrom(files, ring, first, chunks, current, j + 1);
      JoinedSlice(first, chunks, |chunks| - k, |chunks| - j);
    }
  }

  lemma {:induction false} RingReadsBack(files: seq<File>, ring: nat, first: Text, chunks: seq<Text>, current: Text)
    requires ring >= 2 && RingFiles(files, ring, first, chunks, current)
    ensures ReadBack(files) == first + Joined(chunks[|chunks| - Kept(|chunks|, ring)..]) + current
  {
    var k := Kept(|chunks|, ring);
    ReadBackFrom(files, ring, first, chunks, current, 1);
    assert chunks[|chunks| - k..|chunks| - 1 + 1] == chunks[|chunks| - k..];
  }

  /** The length of the end that is kept of a remainder of the given length. */
  function KeptTail(length: nat, ring: nat, size: nat): (n: nat)
    requires ring >= 2 && size >= 1
    ensures n <= length
  {
    Min(length, (ring - 1) * size + length % size)
  }

  lemma {:induction false} MulMonotone(a: nat, b: nat, c: nat)
    requires a <= b
    ensures a * c <= b * c
  {
  }

  lemma {:induction false} TailLength(count: nat, size: nat, current: nat, ring: nat)
    requires ring >= 2 && current < size
    ensures KeptTail(count * size + current, ring, size) == Kept(count, ring) * size + current
  {
    ModOfSum(count, size, current);
    if count <= ring - 1 {
      MulMonotone(count, ring - 1, size);
    } else {
      MulMonotone(ring - 1, count, size);
    }
  }

  lemma {:induction false} ModOfSum(count: nat, size: nat, r: nat)
    requires r < size
    ensures (count * size + r) % size == r
  {
    var n := count * size + r;
    var q := n / size;
    assert n == q * size + n % size;
    if q < count { MulMonotone(q + 1, count, size); }
    if q > count { MulMonotone(count + 1, q, size); }
  }

  /** What reading back should return for the written text w. */
  function BeginningAndEnd(w: Text, half: nat, ring: nat, size: nat): Text
    requires ring >= 2 && size >= 1
  {
    var rest := w[Min(|w|, half)..];
    w[..Min(|w|, half)] + rest[|rest| - KeptTail(|rest|, ring, size)..]
  }

  /** The promise of the header comment: the beginning and the end of everything written survive,
      only the middle is lost, and the total stays within the budget. */
  lemma {:induction false} LogKeepsBeginningAndEnd(log: CallSessionLog)
    requires log.Valid()
    ensures RotatingLogSize(log.maxTotalLogSize) >= 1
    ensures ReadBack(log.files) == BeginningAndEnd(log.Written(), log.maxTotalLogSize / 2,
      NumRotatingLogFiles(log.maxTotalLogSize), RotatingLogSize(log.maxTotalLogSize))
    ensures |ReadBack(log.files)| <= log.maxTotalLogSize
  {
    var half, ring := log.maxTotalLogSize / 2, NumRotatingLogFiles(log.maxTotalLogSize);
    RotatingFilesFit(log.maxTotalLogSize);
    if log.numRotations == 0 {
      FirstFileReadsBack(log.files, ring, log.current);
      assert log.Written() == [] + [] + log.current == log.current;
      ShortTextSurvives(log.current, half, ring, RotatingLogSize(log.maxTotalLogSize));
    } else {
      FullRingReadsBack(log.Written(), half, ring, log.maxFileSize, log.files, log.first, log.chunks, log.current);
    }
  }

  /** The same without the functions of the model: n files of the given size form the ring, and behind
      the beginning a multiple of the size, or everything, is kept in front of what the last file holds. */
  lemma {:induction false} WhatSurvives(log: CallSessionLog, n: nat, size: nat)
    requires log.Valid() && RingOf(log.maxTotalLogSize, n, size)
    ensures var w, half := log.Written(), log.maxTotalLogSize / 2;
      && size > 0 && n > 1
      && (|w| <= half ==> ReadBack(log.files) == w)
      && (|w| > half ==>
            var tail := (n - 1) * size + (|w| - half) % size;
            ReadBack(log.files) == if |w| - half <= tail then w else w[..half] + w[|w| - tail..])
  {
    RingIs(log.maxTotalLogSize, n, size);
    LogKeepsBeginningAndEnd(log);
    SurvivorsOf(log.Written(), log.maxTotalLogSize / 2, n, size);
  }

  lemma {:induction false} SurvivorsOf(w: Text, half: nat, n: nat, size: nat)
    requires n >= 2 && size >= 1
    ensures |w| <= half ==> BeginningAndEnd(w, half, n, size) == w
    ensures |w| > half ==>
      var tail := (n - 1) * size + (|w| - half) % size;
      BeginningAndEnd(w, half, n, size) == if |w| - half <= tail then w else w[..half] + w[|w| - tail..]
  {
    var b := Min(|w|, half);
    SurvivorsWith(w, half, n, size, b, KeptTail(|w| - b, n, size));
  }

  lemma {:induction false} SurvivorsWith(w: Text, half: nat, n: nat, size: nat, b: nat, kept: nat)
    requires n >= 2 && size >= 1 && b == Min(|w|, half) && kept == KeptTail(|w| - b, n, size) <= |w| - b
    ensures BeginningAndEnd(w, half, n, size) == w[..b] + w[|w| - kept..]
    ensures kept == |w| - b ==> BeginningAndEnd(w, half, n, size) == w
  {
    assert |w[b..]| == |w| - b;
    BehindBeginning(w, b, kept);
  }

  lemma {:induction false} BehindBeginning(w: Text, b: nat, kept: nat)
    requires b <= |w| && kept <= |w| - b
    ensures w[b..][|w| - b - kept..] == w[|w| - kept..]
    ensures w[..b] + w[b..] == w
  {
  }

  /** A text of up to three quarters of the budget m is read back whole; of a longer one the first half
      of the budget and at least the last quarter. */
  ghost predicate ThreeQuarters(w: Text, m: nat, r: Text) {
    if |w| <= m / 2 + m / 4 then r == w
    else
      && m / 2 + m / 4 <= |r| <= m && r[..m / 2] == w[..m / 2]
      && r[|r| - m / 4..] == w[|w| - m / 4..]
  }

  /** Three quarters of the budget survive, if so much was written. */
  lemma {:induction false} MostIsKept(log: CallSessionLog)
    requires log.Valid()
    ensures ThreeQuarters(log.Written(), log.maxTotalLogSize, ReadBack(log.files))
  {
    var m := log.maxTotalLogSize;
    LogKeepsBeginningAndEnd(log);
    MostOfText(log.Written(), m, NumRotatingLogFiles(m), RotatingLogSize(m));
  }

  lemma {:induction false} MostOfText(w: Text, m: nat, n: nat, size: nat)
    requires m >= 4 && RingOf(m, n, size)
    ensures n >= 2 && size >= 1 && ThreeQuarters(w, m, BeginningAndEnd(w, m / 2, n, size))
  {
    var rest := w[Min(|w|, m / 2)..];
    RingIs(m, n, size);
    RotatingFilesFit(m);
    TailIsLong(m, |rest|, n, size);
  }

  lemma {:induction false} TailIsLong(maxTotal: nat, length: nat, n: nat, size: nat)
    requires maxTotal >= 4 && RingOf(maxTotal, n, size)
    ensures n >= 2 && size >= 1
    ensures length >= maxTotal / 4 ==> KeptTail(length, n, size) >= maxTotal / 4
    ensures length <= maxTotal / 4 ==> KeptTail(length, n, size) == length
  {
  }

  lemma {:induction false} ShortTextSurvives(w: Text, half: nat, ring: nat, size: nat)
    requires ring >= 2 && size >= 1 && |w| < half
    ensures BeginningAndEnd(w, half, ring, size) == w
  {
  }

  lemma {:induction false} FullRingReadsBack(w: Text, half: nat, ring: nat, size: nat, files: seq<File>, first: Text,
                                             chunks: seq<Text>, current: Text)
    requires ring >= 2 && RingFiles(files, ring, first, chunks, current)
    requires |first| == half && |current| < size && w == first + Joined(chunks) + current
    requires (forall i :: 0 <= i < |chunks| ==> |chunks[i]| == size) && ring * size <= half
    ensures ReadBack(files) == BeginningAndEnd(w, half, ring, size)
    ensures |ReadBack(files)| <= half + half
  {
    var tail := Joined(chunks[|chunks| - Kept(|chunks|, ring)..]);
    RingReadsBack(files, ring, first, chunks, current);
    TailOfRing(w, half, ring, size, first, chunks, current);
    assert first + tail + current == first + (tail + current);
    RingFits(|w[half..]|, ring, size, |chunks|, |current|, half);
  }

  lemma {:induction false} RingFits(length: nat, ring: nat, size: nat, count: nat, current: nat, half: nat)
    requires ring >= 2 && current < size && ring * size <= half
    ensures Kept(count, ring) * size + current <= half
  {
    MulMonotone(Kept(count, ring) + 1, ring, size);
  }

  lemma {:induction false} FirstFileReadsBack(files: seq<File>, ring: nat, current: Text)
    requires ring >= 2 && OneFile(files, ring, current)
    ensures ReadBack(files) == current
  {
    ReadBackMissing(files[1..]);
    assert [] + current == current;
  }

  lemma {:induction false} TailOfRing(w: Text, half: nat, ring: nat, size: nat, first: Text, chunks: seq<Text>,
                                      current: Text)
    requires ring >= 2 && |first| == half && |current| < size && w == first + Joined(chunks) + current
    requires forall i :: 0 <= i < |chunks| ==> |chunks[i]| == size
    ensures |w| >= half && w[..half] == first
    ensures var rest := w[half..]; var n := KeptTail(|rest|, ring, size);
      && rest[|rest| - n..] == Joined(chunks[|chunks| - Kept(|chunks|, ring)..]) + current
      && n == Kept(|chunks|, ring) * size + |current|
  {
    var m := |chunks| - Kept(|chunks|, ring);
    var a, b := Joined(chunks[..m]), Joined(chunks[m..]);
    JoinedSplits(chunks, m);
    JoinedLength(chunks, size);
    JoinedLength(chunks[m..], size);
    TailLength(|chunks|, size, |current|, ring);
    TailBehind(w, first, Joined(chunks), a, b, current);
  }

  lemma {:induction false} TailBehind(w: Text, first: Text, all: Text, a: Text, b: Text, current: Text)
    requires w == first + all + current && all == a + b
    ensures w[..|first|] == first && w[|first|..] == all + current
    ensures w[|first|..][|a|..] == b + current
  {
    assert w == first + (a + (b + current));
    assert w[|first|..] == a + (b + current);
  }

  // ---------------------------------------------------------------- the reader

  /** The existing files in the order of their names. */
  function Contents(files: seq<File>): seq<Text> {
    if files == [] then [] else (if files[0].Present? then [files[0].text] else []) + Contents(files[1..])
  }

  /** The last n of a list of files, read from the end. */
  function Backwards(contents: seq<Text>, n: nat): Text
    requires n <= |contents|
  {
    if n == 0 then [] else contents[n - 1] + Backwards(contents, n - 1)
  }

  lemma {:induction false} BackwardsShift(t: Text, rest: seq<Text>, n: nat)
    requires n <= |rest|
    ensures Backwards([t] + rest, n + 1) == Backwards(rest, n) + t
    decreases n
  {
    if n == 0 {
      assert Backwards([t] + rest, 0) == [] && t + [] == [] + t;
    } else {
      BackwardsShift(t, rest, n - 1);
      var x, y := rest[n - 1], Backwards(rest, n - 1);
      assert ([t] + rest)[n] == x;
      assert x + (y + t) == (x + y) + t;
    }
  }

  lemma {:induction false} BackwardsIsReadBack(files: seq<File>)
    ensures Backwards(Contents(files), |Contents(files)|) == ReadBack(files)
    decreases |files|
  {
    if files == [] {
    } else {
      var rest := Contents(files[1..]);
      BackwardsIsReadBack(files[1..]);
      if files[0].Present? {
        BackwardsShift(files[0].text, rest, |rest|);
      } else {
        assert Contents(files) == rest && ReadBack(files[1..]) + [] == ReadBack(files[1..]);
      }
    }
  }

  /** A FileRotatingStream opened for reading: file names are sorted newest first, so it reads from
      the end of the list. */
  class LogReader {
    const contents: seq<Text>
    var currentFileIndex: nat
    var isOpen: bool
    var position: nat

    ghost predicate Valid()
      reads this
    {
      isOpen ==> currentFileIndex < |contents| && position <= |contents[currentFileIndex]|
    }

    /** What further reads will return. */
    ghost function Remaining(): Text
      requires Valid()
      reads this
    {
      if currentFileIndex >= |contents| then []
      else contents[currentFileIndex][if isOpen then position else 0..] + Backwards(contents, currentFileIndex)
    }

    ghost function FilesLeft(): int
      reads this
    {
      if currentFileIndex >= |contents| then 0 else currentFileIndex + 1
    }

    constructor (files: seq<File>)
      ensures Valid() && Remaining() == ReadBack(files)
    {
      contents := Contents(files);
      var c := Contents(files);
      currentFileIndex := if |c| > 0 then |c| - 1 else 0;
      isOpen, position := false, 0;
      new;
      BackwardsIsReadBack(files);
      if |contents| > 0 { assert contents[|contents| - 1][0..] == contents[|contents| - 1]; }
    }

    /** Reads never skip or repeat a byte; a read that only moves to the next file succeeds with
        no data, and the end is reported only when everything was returned. */
    method Read(bufferLen: nat) returns (result: StreamResult, data: Text)
      requires Valid() && bufferLen > 0
      modifies this
      ensures Valid() && |data| <= bufferLen && old(Remaining()) == data + Remaining()
      ensures result == SR_EOS ==> data == [] && Remaining() == []
      ensures result == SR_EOS || result == SR_SUCCESS
      ensures FilesLeft() <= old(FilesLeft()) - if result == SR_SUCCESS && data == [] then 1 else 0
    {
      data := [];
      if currentFileIndex >= |contents| {
        return SR_EOS, data;
      }
      if !isOpen {
        isOpen, position := true, 0;
      }
      ghost var file, older := contents[currentFileIndex], Backwards(contents, currentFileIndex);
      var n := Min(bufferLen, |contents[currentFileIndex]| - position);
      if n > 0 {
        data := contents[currentFileIndex][position..position + n];
        assert file[position..] == data + file[position + n..];
        assert data + file[position + n..] + older == data + (file[position + n..] + older);
        position := position + n;
        return SR_SUCCESS, data;
      }
      assert file[position..] == [] && [] + older == older;
      isOpen := false;
      if currentFileIndex == 0 {
        currentFileIndex := |contents|;
      } else {
        currentFileIndex := currentFileIndex - 1;
        assert contents[currentFileIndex][0..] == contents[currentFileIndex];
      }
      return SR_SUCCESS, data;
    }

    /** Reading to the end terminates and returns everything. */
    method ReadAll(bufferLen: nat) returns (text: Text)
      requires Valid() && bufferLen > 0
      modifies this
      ensures Valid() && text == old(Remaining()) && Remaining() == []
    {
      text := [];
      var result := SR_SUCCESS;
      ghost var goal, rest := Remaining(), Remaining();
      assert text + rest == goal;
      while result == SR_SUCCESS
        invariant Valid() && rest == Remaining() && text + rest == goal && FilesLeft() >= 0
        invariant result != SR_SUCCESS ==> rest == []
        decreases result == SR_SUCCESS, FilesLeft(), |rest|
      {
        var data;
        result, data := Read(bufferLen);
        assert rest == data + Remaining();
        Associate(text, data, Remaining());
        text, rest := text + data, Remaining();
      }
      assert text + [] == text;
    }
  }

  lemma {:induction false} Associate(a: Text, b: Text, c: Text)
    ensures a + (b + c) == (a + b) + c
  {
  }

  /** Reading a call-session log to the end, in portions of any size, returns the beginning and the
      end of everything that was written to it. */
  method ReadLog(log: CallSessionLog, bufferLen: nat) returns (text: Text)
    requires log.Valid() && bufferLen > 0
    ensures RotatingLogSize(log.maxTotalLogSize) >= 1
    ensures text == BeginningAndEnd(log.Written(), log.maxTotalLogSize / 2,
      NumRotatingLogFiles(log.maxTotalLogSize), RotatingLogSize(log.maxTotalLogSize))
    ensures ThreeQuarters(log.Written(), log.maxTotalLogSize, text)
  {
    MostIsKept(log);
    LogKeepsBeginningAndEnd(log);
    var reader := new LogReader(log.files);
    text := reader.ReadAll(bufferLen);
  }

  // ---------------------------------------------------------------- file names

  /** GetFilePath without the directory: the padding counts tens, not digits. */
  function FileName(prefix: string, index: nat, numFiles: nat): string
    requires index < numFiles
  {
    var maxDigits := (numFiles - 1) / 10 + 1;
    var numDigits := index / 10 + 1;
    prefix + "_" + Repeat('0', maxDigits - numDigits) + Decimal(index)
  }

  /** Names of logs with at most ten, twelve and twenty-one files. */
  lemma {:induction false} FileNameExamples(prefix: string, i: nat, j: nat, k: nat)
    requires prefix == "webrtc_log" && i == 3 && j == 12 && k == 100
    ensures FileName(prefix, i, 10) == "webrtc_log_3" && FileName(prefix, i, 12) == "webrtc_log_03"
    ensures FileName(prefix, j, 13) == "webrtc_log_12" && FileName(prefix, j, 21) == "webrtc_log_012"
    ensures FileName(prefix, i, 21) == "webrtc_log_003" && FileName(prefix, k, 101) == "webrtc_log_100"
  {
  }

  method GetFilePath(prefix: string, index: nat, numFiles: nat) returns (name: string)
    requires index < numFiles
    ensures name == FileName(prefix, index, numFiles)
  {
    var maxDigits := (numFiles - 1) / 10 + 1;
    var numDigits := index / 10 + 1;
    var padding := maxDigits - numDigits;
    name := prefix + "_";
    for i := 0 to padding
      invariant name == prefix + "_" + Repeat('0', i)
    {
      assert Repeat('0', i + 1) == Repeat('0', i) + "0";
      name := name + "0";
    }
    name := name + Decimal(index);
  }

  lemma {:induction false} BelowAfterPrefix(p: string, s: string, t: string)
    ensures Below(p + s, p + t) == Below(s, t)
    decreases |p|
  {
    if p == [] {
      assert p + s == s && p + t == t;
    } else {
      assert (p + s)[1..] == p[1..] + s && (p + t)[1..] == p[1..] + t;
      BelowAfterPrefix(p[1..], s, t);
    }
  }

  lemma {:induction false} DecimalLeads(n: nat)
    requires n >= 1
    ensures Decimal(n)[0] > '0'
  {
    if n < 10 {
    } else {
      DecimalLeads(n / 10);
    }
  }

  lemma {:induction false} NameParts(prefix: string, index: nat, numFiles: nat, zeros: nat)
    requires index < numFiles && zeros <= (numFiles - 1) / 10 - index / 10
    ensures FileName(prefix, index, numFiles)
      == prefix + "_" + Repeat('0', zeros) + (Repeat('0', (numFiles - 1) / 10 - index / 10 - zeros) + Decimal(index))
  {
    ZerosSplit(zeros, (numFiles - 1) / 10 - index / 10 - zeros);
  }

  lemma {:induction false} ZerosSplit(m: nat, n: nat)
    ensures Repeat('0', m + n) == Repeat('0', m) + Repeat('0', n)
  {
  }

  lemma {:induction false} SameTens(i: nat, j: nat)
    requires i < j && i / 10 == j / 10
    ensures Below(Decimal(i), Decimal(j))
  {
    var d := if i < 10 then "" else Decimal(i / 10);
    assert Decimal(i) == d + [Digit(i % 10)] && Decimal(j) == d + [Digit(j % 10)];
    BelowAfterPrefix(d, [Digit(i % 10)], [Digit(j % 10)]);
  }

  lemma {:induction false} PaddedIsBelow(zeros: nat, i: nat, j: nat)
    requires zeros > 0 && j >= 1
    ensures Below(Repeat('0', zeros) + Decimal(i), Decimal(j))
  {
    DecimalLeads(j);
    assert (Repeat('0', zeros) + Decimal(i))[0] == '0';
  }

  /** The names sort like the indices, for any number of files. */
  lemma {:induction false} FileNamesSort(prefix: string, i: nat, j: nat, numFiles: nat)
    requires i < j < numFiles
    ensures Below(FileName(prefix, i, numFiles), FileName(prefix, j, numFiles))
  {
    var pj := (numFiles - 1) / 10 - j / 10;
    var lead, more := prefix + "_" + Repeat('0', pj), j / 10 - i / 10;
    NameParts(prefix, i, numFiles, pj);
    NameParts(prefix, j, numFiles, pj);
    assert Repeat('0', 0) + Decimal(j) == Decimal(j);
    if more == 0 {
      SameTens(i, j);
      assert Repeat('0', 0) + Decimal(i) == Decimal(i);
    } else {
      PaddedIsBelow(more, i, j);
    }
    BelowAfterPrefix(lead, Repeat('0', more) + Decimal(i), Decimal(j));
  }
}
