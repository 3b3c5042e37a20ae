/** The call-session log of filerotatingstream.cc: one file for the beginning of everything written,
    then a ring of smaller files for the end of it. Files are identified by their index; all file
    operations succeed. */
module RotatingLog {
  import opened Common

  type Text = seq<Octet>
  datatype File = Missing | Present(text: Text)

  const ROTATING_FILE_DEFAULT_SIZE: nat := 1024 * 1024

  function Max(m: nat, n: nat): nat { if m > n then m else n }
  function Min(m: nat, n: nat): nat { if m < n then m else n }

  /** At least two files; otherwise as many of the default size as the second half of the budget holds. */
  function NumRotatingLogFiles(maxTotal: nat): (n: nat)
    ensures n >= 2 && (maxTotal / 2 < 3 * 1048576 <==> n == 2)
    ensures n > 2 ==> n * 1048576 <= maxTotal / 2 < (n + 1) * 1048576
  {
    Max(2, maxTotal / 2 / ROTATING_FILE_DEFAULT_SIZE)
  }

  /** Megabytes, or as much as two files can share of the second half of the budget. */
  function RotatingLogSize(maxTotal: nat): (size: nat)
    ensures if maxTotal / 2 < 3 * 1048576 then 2 * size <= maxTotal / 2 < 2 * size + 2 else size == 1048576
  {
    if NumRotatingLogFiles(maxTotal) > 2 then ROTATING_FILE_DEFAULT_SIZE else maxTotal / 4
  }

  /** The rotating files together fit the second half of the budget. */
  lemma {:induction false} RotatingFilesFit(maxTotal: nat)
    requires maxTotal >= 4
    ensures RotatingLogSize(maxTotal) >= 1
    ensures NumRotatingLogFiles(maxTotal) * RotatingLogSize(maxTotal) <= maxTotal / 2
  {
  }

  /** The ring of a budget, in plain numbers: n files of the given size. */
  predicate RingOf(maxTotal: nat, n: nat, size: nat) {
    var half := maxTotal / 2;
    if half < 3 * 1048576 then n == 2 && 2 * size <= half < 2 * size + 2
    else n * 1048576 <= half < (n + 1) * 1048576 && size == 1048576
  }

  lemma {:induction false} RingIs(maxTotal: nat, n: nat, size: nat)
    ensures RingOf(maxTotal, n, size) <==> n == NumRotatingLogFiles(maxTotal) && size == RotatingLogSize(maxTotal)
  {
  }

  // ---------------------------------------------------------------- renaming

  /** Every file below the index moves up by one, the file at the index is gone, later ones stay. */
  function Renamed(files: seq<File>, index: nat): (r: seq<File>)
    requires index < |files|
    ensures |r| == |files|
  {
    [Missing] + files[..index] + files[index + 1..]
  }

  /** Renaming when the files from place i on have moved up. */
  function Shifted(files: seq<File>, index: nat, i: nat): (r: seq<File>)
    requires i <= index < |files|
    ensures |r| == |files| && r[i] == Missing
  {
    files[..i] + [Missing] + files[i..index] + files[index + 1..]
  }

  lemma {:induction false} ShiftedEnds(files: seq<File>, index: nat)
    requires index < |files|
    ensures Shifted(files, index, index) == files[index := Missing]
    ensures Shifted(files, index, 0) == Renamed(files, index)
  {
  }

  lemma {:induction false} ShiftOnce(files: seq<File>, index: nat, i: nat)
    requires 0 < i <= index < |files|
    ensures var s := Shifted(files, index, i);
      Shifted(files, index, i - 1) == if s[i - 1].Present? then s[i := s[i - 1]][i - 1 := Missing] else s
  {
    var s := Shifted(files, index, i);
    assert s[i - 1] == files[i - 1] && files[i - 1..index] == [files[i - 1]] + files[i..index];
    assert files[..i] == files[..i - 1] + [files[i - 1]];
  }

  function Joined(chunks: seq<Text>): Text {
    if chunks == [] then [] else Joined(chunks[..|chunks| - 1]) + chunks[|chunks| - 1]
  }

  /** The number of completed rotating files still there when count were completed. */
  function Kept(count: nat, ring: nat): nat
    requires ring >= 2
  {
    Min(count, ring - 1)
  }

  /** The files while the first one is filling. */
  ghost predicate OneFile(files: seq<File>, ring: nat, current: Text) {
    |files| == ring + 1 && files[0] == Present(current) && forall i :: 1 <= i <= ring ==> files[i] == Missing
  }

  /** The files afterwards: the current one, the newest completed ones, and the first one last. */
  ghost predicate RingFiles(files: seq<File>, ring: nat, first: Text, chunks: seq<Text>, current: Text)
    requires ring >= 2
  {
    var k := Kept(|chunks|, ring);
    && |files| == ring + 1 && files[0] == Present(current)
    && (forall i :: 1 <= i <= k ==> files[i] == Present(chunks[|chunks| - i]))
    && files[k + 1] == Present(first)
    && (forall i :: k + 1 < i <= ring ==> files[i] == Missing)
  }

  /** The state of the log's files and of the record after n rotations. */
  ghost predicate Arranged(maxTotal: nat, n: nat, files: seq<File>, first: Text, chunks: seq<Text>, current: Text) {
    var ring := NumRotatingLogFiles(maxTotal);
    if n == 0 then first == [] && chunks == [] && OneFile(files, ring, current)
    else
      && n == |chunks| + 1 && |first| == maxTotal / 2
      && (forall i :: 0 <= i < |chunks| ==> |chunks[i]| == RotatingLogSize(maxTotal))
      && RingFiles(files, ring, first, chunks, current)
  }

  /** The size of the current file after n rotations. */
  function SizeAfter(maxTotal: nat, n: nat): nat {
    if n == 0 then maxTotal / 2 else RotatingLogSize(maxTotal)
  }

  /** The file that the next rotation deletes: the last place of the ring until the first file has
      moved there, and the place before it from then on. */
  function IndexAfter(maxTotal: nat, n: nat): nat {
    var ring := NumRotatingLogFiles(maxTotal);
    if n < ring then ring else ring - 1
  }

  lemma {:induction false} FirstRotation(files: seq<File>, ring: nat, current: Text)
    requires ring >= 2 && OneFile(files, ring, current)
    ensures RingFiles(Renamed(files, ring)[0 := Present([])], ring, current, [], [])
  {
    var r := Renamed(files, ring);
    assert r[1] == files[0];
    assert forall i :: 1 < i <= ring ==> r[i] == files[i - 1];
  }

  /** A later rotation never touches the first file once the ring is full. */
  lemma {:induction false} LaterRotation(files: seq<File>, ring: nat, first: Text, chunks: seq<Text>, current: Text,
                                         index: nat)
    requires ring >= 2 && RingFiles(files, ring, first, chunks, current)
    requires index == if |chunks| + 1 >= ring then ring - 1 else ring
    ensures RingFiles(Renamed(files, index)[0 := Present([])], ring, first, chunks + [current], [])
  {
    var r, c := Renamed(files, index), chunks + [current];
    assert forall i :: 1 <= i <= index ==> r[i] == files[i - 1];
    assert forall i :: index < i <= ring ==> r[i] == files[i];
    forall i | 1 <= i <= Kept(|c|, ring) ensures r[i] == Present(c[|c| - i]) {
      if i > 1 { assert files[i - 1] == Present(chunks[|chunks| - (i - 1)]); }
    }
  }

  /** Rotating a full current file keeps the arrangement, and the record of everything written. */
  lemma {:induction false} RotationKeepsArrangement(maxTotal: nat, n: nat, files: seq<File>, first: Text,
                                                    chunks: seq<Text>, current: Text)
    requires Arranged(maxTotal, n, files, first, chunks, current) && |current| == SizeAfter(maxTotal, n)
    ensures |files| == NumRotatingLogFiles(maxTotal) + 1
    ensures var first' := if n == 0 then current else first;
      var chunks' := if n == 0 then [] else chunks + [current];
      && Arranged(maxTotal, n + 1, Renamed(files, IndexAfter(maxTotal, n))[0 := Present([])], first', chunks', [])
      && first' + Joined(chunks') + [] == first + Joined(chunks) + current
  {
    var ring := NumRotatingLogFiles(maxTotal);
    if n == 0 {
      FirstRotation(files, ring, current);
      assert [] + [] + current == current + [] + [];
    } else {
      LaterRotation(files, ring, first, chunks, current, IndexAfter(maxTotal, n));
      assert (chunks + [current])[..|chunks|] == chunks;
      assert first + (Joined(chunks) + current) + [] == first + Joined(chunks) + current;
    }
  }

  lemma {:induction false} WritingKeepsArrangement(maxTotal: nat, n: nat, files: seq<File>, first: Text,
                                                   chunks: seq<Text>, current: Text, data: Text)
    requires Arranged(maxTotal, n, files, first, chunks, current)
    ensures |files| > 0 && files[0] == Present(current)
    ensures Arranged(maxTotal, n, files[0 := Present(current + data)], first, chunks, current + data)
    ensures first + Joined(chunks) + (current + data) == (first + Joined(chunks) + current) + data
  {
  }

  class CallSessionLog {
    const maxTotalLogSize: nat
    const numFiles: nat
    var files: seq<File>
    var maxFileSize: nat
    var rotationIndex: nat
    var currentBytesWritten: nat
    var numRotations: nat
    /** Everything written: the first file, the completed rotating files, the current one. */
    ghost var first: Text
    ghost var chunks: seq<Text>
    ghost var current: Text

    ghost function Written(): Text
      reads this
    {
      first + Joined(chunks) + current
    }

    ghost function Ring(): nat
      reads this
    {
      NumRotatingLogFiles(maxTotalLogSize)
    }

    ghost predicate Valid()
      reads this
    {
      Recorded() && |current| < maxFileSize
    }

    /** As Valid, but the current file may be full. */
    ghost predicate Recorded()
      reads this
    {
      && maxTotalLogSize >= 4 && numFiles == Ring() + 1 && currentBytesWritten == |current| <= maxFileSize
      && OnSchedule()
      && Arranged(maxTotalLogSize, numRotations, files, first, chunks, current)
    }

    ghost predicate OnSchedule()
      reads this
    {
      && maxFileSize == SizeAfter(maxTotalLogSize, numRotations)
      && rotationIndex == IndexAfter(maxTotalLogSize, numRotations)
    }

    constructor (maxTotalLogSize: nat)
      requires maxTotalLogSize >= 4
      ensures Valid() && Written() == [] && this.maxTotalLogSize == maxTotalLogSize
      ensures maxFileSize == maxTotalLogSize / 2 && numFiles == |files|
      ensures rotationIndex == |files| - 1 && RingOf(maxTotalLogSize, |files| - 1, RotatingLogSize(maxTotalLogSize))
    {
      this.maxTotalLogSize := maxTotalLogSize;
      numFiles := NumRotatingLogFiles(maxTotalLogSize) + 1;
      maxFileSize := maxTotalLogSize / 2;
      rotationIndex := NumRotatingLogFiles(maxTotalLogSize) + 1 - 1;
      files := [Present([])] + seq(NumRotatingLogFiles(maxTotalLogSize), i => Missing);
      currentBytesWritten, numRotations := 0, 0;
      first, chunks, current := [], [], [];
    }

    /** Writes what fits the current file and rotates when that fills it. */
    method Write(data: Text) returns (written: nat)
      requires Valid()
      modifies this
      ensures Valid() && written == Min(|data|, old(maxFileSize - currentBytesWritten)) && (data != [] ==> written > 0)
      ensures Written() == old(Written()) + data[..written]
    {
      RotatingFilesFit(maxTotalLogSize);
      var remainingBytes := maxFileSize - currentBytesWritten;
      written := Min(|data|, remainingBytes);
      AppendToCurrent(data[..written]);
      if currentBytesWritten >= maxFileSize {
        RotateFiles();
      }
    }

    method AppendToCurrent(data: Text)
      requires Recorded() && |current| + |data| <= maxFileSize
      modifies this`files, this`current, this`currentBytesWritten
      ensures Recorded() && |current| == old(|current|) + |data|
      ensures Written() == old(Written()) + data
    {
      WritingKeepsArrangement(maxTotalLogSize, numRotations, files, first, chunks, current, data);
      files := files[0 := Present(files[0].text + data)];
      current := current + data;
      currentBytesWritten := currentBytesWritten + |data|;
    }

    method RotateFiles()
      requires Recorded() && |current| == maxFileSize
      modifies this
      ensures Valid() && Written() == old(Written())
    {
      RotatingFilesFit(maxTotalLogSize);
      RotationKeepsArrangement(maxTotalLogSize, numRotations, files, first, chunks, current);
      currentBytesWritten := 0;
      RenameFiles();
      files := files[0 := Present([])];
      if numRotations == 0 {
        first := current;
      } else {
        chunks := chunks + [current];
      }
      current := [];
      OnRotation();
    }

    /** Deletes the file at the rotation index and renames the files below it, lines 285 to 300. */
    method RenameFiles()
      requires rotationIndex < |files|
      modifies this`files
      ensures files == Renamed(old(files), rotationIndex)
    {
      ShiftedEnds(files, rotationIndex);
      if files[rotationIndex].Present? {
        files := files[rotationIndex := Missing];
      }
      var i := rotationIndex;
      while i > 0
        invariant 0 <= i <= rotationIndex < |old(files)| && files == Shifted(old(files), rotationIndex, i)
      {
        ShiftOnce(old(files), rotationIndex, i);
        if files[i - 1].Present? {
          files := files[i := files[i - 1]][i - 1 := Missing];
        }
        i := i - 1;
      }
    }

    /** Sizes and indices follow the schedule from one rotation to the next. */
    method OnRotation()
      requires numFiles == Ring() + 1 && OnSchedule()
      modifies this`numRotations, this`maxFileSize, this`rotationIndex
      ensures numRotations == old(numRotations) + 1 && OnSchedule()
      ensures if numRotations == 1 then RingOf(maxTotalLogSize, numFiles - 1, maxFileSize)
              else maxFileSize == old(maxFileSize)
      ensures numFiles == Ring() + 1
      ensures rotationIndex == if numRotations < numFiles - 1 then numFiles - 1 else numFiles - 2
    {
      numRotations := numRotations + 1;
      if numRotations == 1 {
        maxFileSize := RotatingLogSize(maxTotalLogSize);
      } else if numRotations == numFiles - 1 {
        rotationIndex := rotationIndex - 1;
      }
    }
  }
}
