/** tailFile: the last N lines of a file, read backwards in chunks under a read cap. */
module TailFile {
  import opened Bytes
  import Truncate

  const TAIL_CHUNK_SIZE := 8192

  /** The lines of a whole file: what is between newlines, without the empty piece after a final newline. */
  function FileLines(file: Text): (lines: seq<Text>)
  {
    var parts := Split(file, NEWLINE);
    if Last(parts) == [] then DropLast(parts) else parts
  }

  /** The lines are newline-free and, with the final newline if there is one, spell the file. */
  lemma FileLinesSpellTheFile(file: Text)
    ensures forall l <- FileLines(file) :: NEWLINE !in l
    ensures file != [] ==>
      file == Join(FileLines(file), NEWLINE) + if Last(Split(file, NEWLINE)) == [] then [NEWLINE] else []
  {
    JoinSplit(file, NEWLINE);
    PiecesAreFree(file, NEWLINE);
    var parts := Split(file, NEWLINE);
    if file != [] && Last(parts) == [] {
      assert |parts| > 1;
      JoinSnocEmpty(DropLast(parts));
      assert DropLast(parts) + [[]] == parts;
    }
  }

  lemma {:induction false} JoinSnocEmpty(parts: seq<Text>)
    requires parts != []
    ensures Join(parts + [[]], NEWLINE) == Join(parts, NEWLINE) + [NEWLINE]
  {
    if |parts| == 1 {
      assert (parts + [[]])[1..] == [[]];
      assert parts[0] + [NEWLINE] + [] == parts[0] + [NEWLINE];
    } else {
      assert (parts + [[]])[1..] == parts[1..] + [[]];
      JoinSnocEmpty(parts[1..]);
    }
  }

  /** And they are the only such lines: whatever newline-free lines a log writer ends with newlines, the last of
      them perhaps not yet, are the lines of the file it wrote. */
  lemma OnlyFileLines(lines: seq<Text>, terminated: bool)
    requires lines != [] && (forall l <- lines :: NEWLINE !in l) && (terminated || Last(lines) != [])
    ensures FileLines(Join(lines, NEWLINE) + if terminated then [NEWLINE] else []) == lines
  {
    if terminated {
      JoinSnocEmpty(lines);
      SplitJoin(lines + [[]], NEWLINE);
      assert DropLast(lines + [[]]) == lines;
    } else {
      SplitJoin(lines, NEWLINE);
      assert Join(lines, NEWLINE) + [] == Join(lines, NEWLINE);
    }
  }

  /** How many bytes the scan may have read when it starts another chunk. */
  function MaxReadBytes(lines: nat): (n: nat)
  {
    lines * Truncate.MAX_LOG_LINE_BYTES * 2 + TAIL_CHUNK_SIZE
  }

  /** How many bytes it has read when the cap stops it: whole chunks, so the cap rounded up. */
  function ReadLimit(lines: nat): (n: nat)
    ensures MaxReadBytes(lines) <= n < MaxReadBytes(lines) + TAIL_CHUNK_SIZE
  {
    TAIL_CHUNK_SIZE * ((MaxReadBytes(lines) + TAIL_CHUNK_SIZE - 1) / TAIL_CHUNK_SIZE)
  }

  /** Whole chunks that reach the cap, the last of them not before, are that many. */
  lemma ReadLimitIsReached(lines: nat, chunks: nat)
    requires chunks > 0
    requires TAIL_CHUNK_SIZE * (chunks - 1) < MaxReadBytes(lines) <= TAIL_CHUNK_SIZE * chunks
    ensures TAIL_CHUNK_SIZE * chunks == ReadLimit(lines)
  {
    RoundedUp(MaxReadBytes(lines), chunks);
  }

  lemma RoundedUp(bytes: nat, chunks: nat)
    requires 8192 * (chunks - 1) < bytes <= 8192 * chunks
    ensures (bytes + 8191) / 8192 == chunks
  {
    var over := bytes + 8191 - 8192 * chunks;
    assert 0 <= over < 8192 && bytes + 8191 == 8192 * chunks + over;
  }

  /** The chunks, collected last to first, put back in file order. */
  function InFileOrder(chunks: seq<Text>): (s: Text)
  {
    if chunks == [] then [] else InFileOrder(chunks[1..]) + chunks[0]
  }

  lemma {:induction false} InFileOrderSnoc(chunks: seq<Text>, chunk: Text)
    ensures InFileOrder(chunks + [chunk]) == chunk + InFileOrder(chunks)
  {
    if chunks == [] {
      assert (chunks + [chunk])[1..] == [];
    } else {
      assert (chunks + [chunk])[1..] == chunks[1..] + [chunk];
      InFileOrderSnoc(chunks[1..], chunk);
    }
  }

  /** The backward scan: it holds exactly the file's tail from `remaining`, stops only at the start of the
      file, on enough newlines or at the cap, and never runs more than one chunk past the cap. */
  method ReadChunks(file: Text, lines: nat) returns (chunks: seq<Text>, remaining: nat)
    requires lines >= 1
    ensures remaining <= |file| && InFileOrder(chunks) == file[remaining..]
    ensures |file| - remaining < 4096 * lines + 2 * 8192
    ensures remaining == 0 || Count(file[remaining..], NEWLINE) > lines || |file| - remaining == ReadLimit(lines)
    ensures |file| - remaining <= ReadLimit(lines)
    ensures remaining < |file| || file == []
  {
    var maxReadBytes := MaxReadBytes(lines);
    chunks := [];
    remaining := |file|;
    var read := 0;
    var lineCount := 0;
    while remaining > 0 && lineCount <= lines && read < maxReadBytes
      invariant remaining <= |file| && read == |file| - remaining
      invariant InFileOrder(chunks) == file[remaining..]
      invariant lineCount == Count(file[remaining..], NEWLINE)
      invariant read < maxReadBytes + TAIL_CHUNK_SIZE
      invariant remaining > 0 ==> read == TAIL_CHUNK_SIZE * |chunks|
      invariant chunks != [] ==> TAIL_CHUNK_SIZE * (|chunks| - 1) < maxReadBytes
      invariant read <= TAIL_CHUNK_SIZE * |chunks|
      invariant remaining == |file| ==> lineCount == 0 && read == 0
    {
      var readSize := if TAIL_CHUNK_SIZE > remaining then remaining else TAIL_CHUNK_SIZE;
      var offset := remaining - readSize;
      var chunk := file[offset..remaining];
      lineCount := lineCount + Count(chunk, NEWLINE);
      CountConcat(chunk, file[remaining..], NEWLINE);
      SliceBefore(file, offset, remaining);
      InFileOrderSnoc(chunks, chunk);
      chunks := chunks + [chunk];
      remaining := offset;
      read := read + |chunk|;
    }
    if read >= maxReadBytes {
      ReadLimitIsReached(lines, |chunks|);
    }
  }

  method JoinChunks(chunks: seq<Text>) returns (collected: Text)
    ensures collected == InFileOrder(chunks)
  {
    collected := [];
    var i := |chunks|;
    assert chunks[..i] == chunks;
    while i > 0
      invariant 0 <= i <= |chunks|
      invariant collected + InFileOrder(chunks[..i]) == InFileOrder(chunks)
    {
      assert chunks[..i] == chunks[..i - 1] + [chunks[i - 1]];
      InFileOrderSnoc(chunks[..i - 1], chunks[i - 1]);
      i := i - 1;
      collected := collected + chunks[i];
    }
    assert chunks[..0] == [];
  }

  /** What the caller gets from a tail of the file: its last lines, less a leading fragment if it was cut. */
  function TailOf(collected: Text, cut: bool, lines: nat): (r: seq<Text>)
  {
    var all := FileLines(collected);
    LastN(if cut && |all| > 1 then all[1..] else all, lines)
  }

  method LastLines(collected: Text, cut: bool, lines: nat) returns (allLines: seq<Text>)
    ensures allLines == TailOf(collected, cut, lines) && |allLines| <= lines
  {
    allLines := Split(collected, NEWLINE);
    if |allLines| > 0 && allLines[|allLines| - 1] == [] {
      allLines := allLines[..|allLines| - 1];
    }
    assert allLines == FileLines(collected);
    allLines := KeepLast(allLines, cut, lines);
  }

  /** Drop the fragment a cut leaves in front, and then all but the last lines. */
  method KeepLast(all: seq<Text>, cut: bool, lines: nat) returns (kept: seq<Text>)
    ensures kept == LastN(if cut && |all| > 1 then all[1..] else all, lines) && |kept| <= lines
  {
    kept := all;
    if cut && |kept| > 1 {
      kept := kept[1..];
    }
    if |kept| > lines {
      kept := kept[|kept| - lines..];
    }
  }

  /** A file's lines are those of its two halves, with the line that straddles the cut put together. */
  lemma FileLinesGlue(a: Text, b: Text)
    requires b != []
    ensures FileLines(b) != []
    ensures FileLines(a + b) == Glue(Split(a, NEWLINE), FileLines(b))
  {
    SplitConcat(a, b, NEWLINE);
    JoinSplit(b, NEWLINE);
    var A, B := Split(a, NEWLINE), Split(b, NEWLINE);
    if |B| == 1 {
      assert B[0] == b;
    } else {
      GlueTrim(A, B);
    }
  }

  /** A tail that holds more newlines than the lines asked for holds all of those lines. */
  lemma EnoughNewlines(file: Text, at: nat, lines: nat)
    requires at < |file| && Count(file[at..], NEWLINE) > lines
    ensures TailOf(file[at..], true, lines) == LastN(FileLines(file), lines)
  {
    var a, b := file[..at], file[at..];
    assert file == a + b;
    FileLinesGlue(a, b);
    GlueLastN(Split(a, NEWLINE), FileLines(b), lines);
  }

  /** r is a suffix of the file's last lines or, if the tail from `at` holds a single fragment, the end of the last
      line. */
  predicate EndOfFile(file: Text, at: nat, lines: nat, r: seq<Text>)
    requires at <= |file|
  {
    if |FileLines(file[at..])| > 1 then IsSuffix(r, LastN(FileLines(file), lines))
    else |r| == 1 && FileLines(file) != [] && IsSuffix(r[0], Last(FileLines(file)))
  }

  /** Any tail gives a suffix of the true answer or, if it holds a single fragment, the end of the last line. */
  lemma CutTail(file: Text, at: nat, lines: nat)
    requires at < |file| && lines >= 1
    ensures EndOfFile(file, at, lines, TailOf(file[at..], true, lines))
  {
    var a, b := file[..at], file[at..];
    assert file == a + b;
    FileLinesGlue(a, b);
    GlueLastN(Split(a, NEWLINE), FileLines(b), lines);
  }

  /** A text ends in an empty piece exactly when it ends in a newline. */
  lemma LastPieceEmptyIff(a: Text)
    requires a != []
    ensures Last(Split(a, NEWLINE)) == [] <==> Last(a) == NEWLINE
  {
    var c := [Last(a)];
    assert a == DropLast(a) + c;
    SplitConcat(DropLast(a), c, NEWLINE);
    if Last(a) == NEWLINE {
      SplitHead([], [], NEWLINE);
      assert [] + [NEWLINE] + [] == c;
    } else {
      SplitHead(c, [], NEWLINE);
    }
  }

  /** A scan stopped at `at` has the lines asked for: it read the whole file, or more lines than that, or the one
      line wanted from its very start. */
  predicate Complete(file: Text, at: nat, lines: nat)
    requires at <= |file|
  {
    at == 0
    || (if |FileLines(file[at..])| > 1 then |FileLines(file[at..])| > lines else lines == 1 && file[at - 1] == NEWLINE)
  }

  /** What a cut tail gives is exact then and only then. */
  lemma CutExactIff(file: Text, at: nat, lines: nat)
    requires 0 < at < |file| && lines >= 1
    ensures TailOf(file[at..], true, lines) == LastN(FileLines(file), lines) <==> Complete(file, at, lines)
  {
    var a, b := file[..at], file[at..];
    assert file == a + b;
    FileLinesGlue(a, b);
    LastPieceEmptyIff(a);
    var A, B := Split(a, NEWLINE), FileLines(b);
    if |B| > 1 {
      GlueLastN(A, B, lines);
    } else {
      OneLineExactIff(A, B[0], lines);
      JoinSplit(a, NEWLINE);
      assert B == [B[0]];
    }
  }

  lemma OneLineExactIff(A: seq<Text>, l: Text, lines: nat)
    requires A != [] && A != [[]] && lines >= 1
    ensures LastN([l], lines) == LastN(Glue(A, [l]), lines) <==> lines == 1 && Last(A) == []
  {
    var G := Glue(A, [l]);
    assert Last(G) == Last(A) + l;
    assert LastN([l], lines) == [l];
    if lines == 1 {
      assert LastN(G, 1) == [Last(G)];
      assert Last(A) + l == l <==> |Last(A)| == 0;
    }
  }

  /** tailFile on a file's content; `at` is where the scan stopped. */
  method TailFile(file: Text, lines: int) returns (r: Result<seq<Text>, string>, ghost at: nat)
    ensures lines < 1 <==> r.Err?
    ensures lines >= 1 ==> at <= |file| && |file| - at < 4096 * lines + 2 * 8192
    ensures r.Ok? ==> |r.value| <= lines
    // Stopped at the start of the file or on the newline count: exactly the last lines of the whole file.
    ensures r.Ok? && (at == 0 || Count(file[at..], NEWLINE) > lines) ==> r.value == LastN(FileLines(file), lines)
    // Stopped by the cap: a suffix of them, or the end of the last line when no whole line was read.
    ensures r.Ok? && at > 0 ==> at < |file| && EndOfFile(file, at, lines, r.value)
    // The answer is exact in no other case.
    ensures r.Ok? ==> (r.value == LastN(FileLines(file), lines) <==> Complete(file, at, lines))
    // What a caller can tell beforehand: the answer is exact when the cap's worth of the file's end suffices.
    ensures r.Ok? && CapSuffices(file, lines) ==> r.value == LastN(FileLines(file), lines)
    // And exactly when the file is within the read limit or its end of that length is complete.
    ensures r.Ok? ==>
              (r.value == LastN(FileLines(file), lines) <==>
                |file| <= ReadLimit(lines) || Complete(file, |file| - ReadLimit(lines), lines))
  {
    at := 0;
    if lines < 1 {
      return Err("tail line count must be at least 1"), 0;
    }
    if |file| == 0 {
      return Ok([]), 0;
    }
    var chunks, remaining := ReadChunks(file, lines);
    var collected := JoinChunks(chunks);
    at := remaining;
    var lastLines := LastLines(collected, remaining > 0, lines);
    StoppedScan(file, remaining, lines);
    if remaining > 0 {
      CutExactIff(file, remaining, lines);
    }
    CompleteAtLimit(file, remaining, lines);
    r := Ok(lastLines);
  }

  /** Wherever the scan stopped, it stopped complete exactly when the read limit would have. */
  lemma CompleteAtLimit(file: Text, at: nat, lines: nat)
    requires lines >= 1 && at < |file| && |file| - at <= ReadLimit(lines)
    requires at == 0 || Count(file[at..], NEWLINE) > lines || |file| - at == ReadLimit(lines)
    ensures Complete(file, at, lines) <==>
              |file| <= ReadLimit(lines) || Complete(file, |file| - ReadLimit(lines), lines)
  {
    if at > 0 && Count(file[at..], NEWLINE) > lines {
      ManyNewlinesComplete(file, at, lines);
      if |file| > ReadLimit(lines) {
        LongerTailCountsMore(file, |file| - ReadLimit(lines), at);
        ManyNewlinesComplete(file, |file| - ReadLimit(lines), lines);
      }
    }
  }

  lemma ManyNewlinesComplete(file: Text, at: nat, lines: nat)
    requires lines >= 1 && at <= |file| && Count(file[at..], NEWLINE) > lines
    ensures Complete(file, at, lines)
  {
  }

  /** The file is within the cap, or its last MaxReadBytes hold enough newlines. */
  predicate CapSuffices(file: Text, lines: nat) {
    |file| <= MaxReadBytes(lines) || Count(file[|file| - MaxReadBytes(lines)..], NEWLINE) > lines
  }

  lemma LongerTailCountsMore(file: Text, i: nat, j: nat)
    requires i <= j <= |file|
    ensures Count(file[i..], NEWLINE) >= Count(file[j..], NEWLINE)
  {
    CountConcat(file[i..j], file[j..], NEWLINE);
    SliceBefore(file, i, j);
  }

  /** A scan stopped by the cap, on a file whose last MaxReadBytes suffice, has the newlines it needs. */
  lemma CapImpliesNewlines(file: Text, at: nat, lines: nat)
    requires 0 < at < |file| && CapSuffices(file, lines)
    requires Count(file[at..], NEWLINE) > lines || |file| - at >= MaxReadBytes(lines)
    ensures Count(file[at..], NEWLINE) > lines
  {
    if |file| - at >= MaxReadBytes(lines) {
      LongerTailCountsMore(file, at, |file| - MaxReadBytes(lines));
    }
  }

  /** What the three reasons for stopping say about the lines returned. */
  lemma StoppedScan(file: Text, at: nat, lines: nat)
    requires lines >= 1 && at < |file|
    requires at == 0 || Count(file[at..], NEWLINE) > lines || |file| - at == ReadLimit(lines)
    ensures at == 0 || Count(file[at..], NEWLINE) > lines || CapSuffices(file, lines) ==>
              TailOf(file[at..], at > 0, lines) == LastN(FileLines(file), lines)
    ensures at > 0 ==> EndOfFile(file, at, lines, TailOf(file[at..], true, lines))
  {
    if at == 0 {
      assert file[0..] == file;
    } else {
      CutTail(file, at, lines);
      if CapSuffices(file, lines) {
        CapImpliesNewlines(file, at, lines);
      }
      if Count(file[at..], NEWLINE) > lines {
        EnoughNewlines(file, at, lines);
      }
    }
  }
}
