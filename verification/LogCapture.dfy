/** CaptureLogTail: find the victim incarnation's log, tail it, parse it and bound it, with retries. */
module LogCapture {
  import opened Bytes
  import LogLines
  import TailFile
  import Truncate

  const LOG_CAPTURE_RETRIES := 3
  const BASE_DELAY_MS := 100

  /** An entry of a container's log directory. */
  datatype Entry = RegularFile(content: Text) | Symlink | NotRegular

  type LogDir = map<Text, Entry>

  // ---------- Which file

  const DOT_LOG: Text := [46, 108, 111, 103]

  /** strconv.Itoa on naturals. */
  function Itoa(n: nat): (s: Text)
    ensures s != []
  {
    var digit := [(48 + n % 10) as byte];
    if n < 10 then digit else Itoa(n / 10) + digit
  }

  /** The number a string of decimal digits stands for. */
  function Value(s: Text): (n: int)
  {
    if s == [] then 0 else 10 * Value(DropLast(s)) + (Last(s) as int - 48)
  }

  lemma {:induction false} ItoaValue(n: nat)
    ensures Value(Itoa(n)) == n
  {
    if n >= 10 {
      ItoaValue(n / 10);
      assert DropLast(Itoa(n)) == Itoa(n / 10);
    } else {
      assert DropLast(Itoa(n)) == [];
    }
  }

  /** The kubelet's name for the log of incarnation n. */
  function LogName(n: nat): (name: Text)
  {
    Itoa(n) + DOT_LOG
  }

  /** Different incarnations never share a log file name. */
  lemma LogNamesDiffer(m: nat, n: nat)
    requires m != n
    ensures LogName(m) != LogName(n)
  {
    ItoaValue(m);
    ItoaValue(n);
    assert LogName(m)[..|LogName(m)| - 4] == Itoa(m);
    assert LogName(n)[..|LogName(n)| - 4] == Itoa(n);
  }

  /** findLogFile. The scan for the newest file, used only for an unknown index, is a parameter. */
  function FindLogFile(dir: LogDir, index: int, latest: LogDir -> Option<Text>): (r: Option<Text>)
  {
    if index < 0 then latest(dir)
    else
      var name := LogName(index);
      if name !in dir || dir[name].Symlink? then None else Some(name)
  }

  /** A known incarnation's own file is opened or nothing is: another incarnation's never stands in for it. */
  lemma NeverSubstituted(dir: LogDir, index: nat, latest: LogDir -> Option<Text>, other: nat)
    ensures FindLogFile(dir, index, latest).Some? <==> LogName(index) in dir && !dir[LogName(index)].Symlink?
    ensures FindLogFile(dir, index, latest).Some? && other != index ==>
            FindLogFile(dir, index, latest).value != LogName(other)
  {
    if other != index {
      LogNamesDiffer(index, other);
    }
  }

  /** An attempt can read the log: the file is found and is a regular file. */
  predicate Readable(dir: LogDir, index: int, latest: LogDir -> Option<Text>) {
    var name := FindLogFile(dir, index, latest);
    name.Some? && name.value in dir && dir[name.value].RegularFile?
  }

  function ContentOf(dir: LogDir, index: int, latest: LogDir -> Option<Text>): (content: Text)
    requires Readable(dir, index, latest)
  {
    dir[FindLogFile(dir, index, latest).value].content
  }

  // ---------- The pipeline

  /** Raw lines through parseLogLines and truncateLines. */
  function Processed(f: LogLines.Formats, raw: seq<Text>): (lines: seq<Text>)
  {
    Truncate.Truncated(LogLines.Parsed(LogLines.Items(f, raw)))
  }

  /** raw is what tailFile may return for this content: its last lines, or, past the read cap, the end of them. */
  ghost predicate IsTail(content: Text, tailLines: nat, raw: seq<Text>) {
    var exact := LastN(TailFile.FileLines(content), tailLines);
    && |raw| <= tailLines
    && (TailFile.CapSuffices(content, tailLines) ==> raw == exact)
    && (raw == exact || exists at :: 0 < at < |content| && TailFile.EndOfFile(content, at, tailLines, raw))
  }

  /** One attempt on the directory as it is now. */
  method TryCapture(f: LogLines.Formats, dir: LogDir, index: int, latest: LogDir -> Option<Text>, tailLines: int)
    returns (r: Option<seq<Text>>, ghost raw: seq<Text>)
    ensures r.Some? <==> tailLines >= 1 && Readable(dir, index, latest)
    ensures r.Some? ==> IsTail(ContentOf(dir, index, latest), tailLines, raw) && r.value == Processed(f, raw)
  {
    r, raw := None, [];
    var name := FindLogFile(dir, index, latest);
    if name.None? || name.value !in dir || !dir[name.value].RegularFile? {
      return;
    }
    var lines, at := TailFile.TailFile(dir[name.value].content, tailLines);
    if lines.Err? {
      return;
    }
    var parsed := LogLines.ParseLogLines(f, lines.value);
    var bounded := Truncate.TruncateLines(parsed);
    r, raw := Some(bounded), lines.value;
  }

  /** CaptureLogTail; dirs(k) is the directory as the k-th attempt sees it. */
  method CaptureLogTail(f: LogLines.Formats, dirs: nat -> LogDir, index: int, latest: LogDir -> Option<Text>,
                        tailLines: int)
    returns (r: Result<seq<Text>, string>, ghost attempt: nat, ghost raw: seq<Text>, ghost sleptMs: nat)
    ensures r.Err? <==> tailLines < 1 || forall k :: 0 <= k < LOG_CAPTURE_RETRIES ==> !Readable(dirs(k), index, latest)
    ensures r.Ok? ==>
      && attempt < LOG_CAPTURE_RETRIES
      && Readable(dirs(attempt), index, latest)
      && (forall k :: 0 <= k < attempt ==> !Readable(dirs(k), index, latest))
      && IsTail(ContentOf(dirs(attempt), index, latest), tailLines, raw)
      && r.value == Processed(f, raw)
    ensures r.Ok? ==> sleptMs == if attempt == 0 then 0 else if attempt == 1 then 100 else 300
  {
    var delay := BASE_DELAY_MS;
    attempt, raw, sleptMs := 0, [], 0;
    for k := 0 to LOG_CAPTURE_RETRIES
      invariant tailLines < 1 || forall j :: 0 <= j < k ==> !Readable(dirs(j), index, latest)
      invariant k == 0 ==> delay == 100 && sleptMs == 0
      invariant k == 1 ==> delay == 100 && sleptMs == 0
      invariant k == 2 ==> delay == 200 && sleptMs == 100
    {
      if k > 0 {
        sleptMs := sleptMs + delay;
        delay := delay * 2;
      }
      var captured, lines := TryCapture(f, dirs(k), index, latest, tailLines);
      if captured.Some? {
        return Ok(captured.value), k, lines, sleptMs;
      }
    }
    r := Err("log capture failed");
  }

  /** End to end, for every validated tail count: the captured log fits the schema, the item-count branch of
      truncateLines is never taken, and nothing is dropped in front. */
  lemma CapturedLogFits(f: LogLines.Formats, tailLines: nat, raw: seq<Text>)
    requires 1 <= tailLines <= Truncate.MAX_LOG_LINES && |raw| <= tailLines
    ensures |Processed(f, raw)| <= Truncate.MAX_LOG_LINES
    ensures forall i :: 0 <= i < |Processed(f, raw)| ==> |Processed(f, raw)[i]| <= 2048 + 14
    ensures TotalLen(Processed(f, raw)) <= 65536 + 14
    ensures |LogLines.Parsed(LogLines.Items(f, raw))| <= Truncate.MAX_LOG_LINES
    ensures var parsed := LogLines.Parsed(LogLines.Items(f, raw));
            Processed(f, raw) == Truncate.Body(Truncate.ShortenedLines(parsed), Truncate.MAX_LOG_TOTAL_BYTES)
  {
    var parsed := LogLines.Parsed(LogLines.Items(f, raw));
    LogLines.ItemsHaveKnownParts(f, raw);
    LogLines.ParsedCount(LogLines.Items(f, raw));
    Truncate.TruncatedBounds(parsed);
    Truncate.MarkerIsValid();
    assert [] + Truncate.Body(Truncate.ShortenedLines(parsed), Truncate.MAX_LOG_TOTAL_BYTES)
        == Truncate.Body(Truncate.ShortenedLines(parsed), Truncate.MAX_LOG_TOTAL_BYTES);
  }

  /** What the container logged is what the report shows: for a log within the line count and the read cap,
      the captured lines are the messages written, in the order they were completed, then the unfinished ones. */
  lemma SmallLogIsCapturedWhole(f: LogLines.Formats, w: LogLines.Session, items: seq<LogLines.Item>, raw: seq<Text>,
                                timestamps: seq<Text>, flags: seq<Text>, content: Text, tailLines: nat, got: seq<Text>)
    requires LogLines.Wrote(w, items) && LogLines.Framed(f, items, raw, timestamps, flags)
    requires TailFile.FileLines(content) == raw && |raw| <= tailLines && |content| <= TailFile.MaxReadBytes(tailLines)
    requires IsTail(content, tailLines, got)
    ensures Processed(f, got)
         == Truncate.Truncated(LogLines.Messages(LogLines.Expected(items))
                               + ((if w.errCutOff == [] then [] else [Concat(w.errCutOff)])
                                  + (if w.outCutOff == [] then [] else [Concat(w.outCutOff)])))
  {
    assert got == raw;
    LogLines.RoundTrip(f, w, items, raw, timestamps, flags);
  }

  /** Nothing but the end of the last line was within the read cap. */
  predicate IsFragment(content: Text, tailLines: nat, got: seq<Text>) {
    var lines := TailFile.FileLines(content);
    |got| == 1 && lines != [] && IsSuffix(got[0], Last(lines)) && !TailFile.CapSuffices(content, tailLines)
  }

  /** Any tail is the end of the file's lines or, when not one whole line was read, the end of the last line. */
  lemma TailIsEnd(content: Text, tailLines: nat, got: seq<Text>)
    requires IsTail(content, tailLines, got)
    ensures IsSuffix(got, TailFile.FileLines(content)) || IsFragment(content, tailLines, got)
  {
    var lines := TailFile.FileLines(content);
    var exact := LastN(lines, tailLines);
    LastNIsSuffix(lines, tailLines);
    if got != exact {
      var at :| 0 < at < |content| && TailFile.EndOfFile(content, at, tailLines, got);
      if IsSuffix(got, exact) {
        SuffixOfSuffix(got, exact, lines);
      }
    }
  }

  lemma LastNIsSuffix(lines: seq<Text>, n: nat)
    ensures IsSuffix(LastN(lines, n), lines)
  {
    assert lines[0..] == lines;
  }

  lemma SuffixOfSuffix(a: seq<Text>, b: seq<Text>, c: seq<Text>)
    requires IsSuffix(a, b) && IsSuffix(b, c)
    ensures IsSuffix(a, c)
  {
    assert c[|c| - |a|..] == b[|b| - |a|..];
  }

  lemma ItemsOfSuffix(f: LogLines.Formats, items: seq<LogLines.Item>, raw: seq<Text>, got: seq<Text>)
    requires IsSuffix(got, raw) && LogLines.Items(f, raw) == items
    ensures LogLines.Items(f, got) == items[|items| - |got|..]
  {
  }

  /** What parsing the captured lines yields of a session, got being the last lines of those written: per stream,
      the end of what was written to it. */
  predicate EndsSession(f: LogLines.Formats, got: seq<Text>, items: seq<LogLines.Item>, w: LogLines.Session) {
    && |got| <= |items|
    && LogLines.EndsSession(LogLines.Assemble(LogLines.Items(f, got)), items[|items| - |got|..], w)
  }

  lemma TailEndsSession(f: LogLines.Formats, got: seq<Text>, items: seq<LogLines.Item>, w: LogLines.Session)
    requires LogLines.Wrote(w, items)
    requires |got| <= |items| && LogLines.Items(f, got) == items[|items| - |got|..]
    ensures EndsSession(f, got, items, w)
  {
    LogLines.EndOfSessionParses(items, |items| - |got|, w);
  }

  /** Logs of any length: the report shows, per stream, the end of what was written, of which only the first
      message may be cut, and only to its own end; unless not even one whole line was within the read cap. */
  lemma LogEndIsCaptured(f: LogLines.Formats, w: LogLines.Session, items: seq<LogLines.Item>, raw: seq<Text>,
                         timestamps: seq<Text>, flags: seq<Text>, content: Text, tailLines: nat, got: seq<Text>)
    requires LogLines.Wrote(w, items) && LogLines.Framed(f, items, raw, timestamps, flags)
    requires TailFile.FileLines(content) == raw && IsTail(content, tailLines, got)
    ensures EndsSession(f, got, items, w) || IsFragment(content, tailLines, got)
  {
    TailIsEnd(content, tailLines, got);
    if IsSuffix(got, raw) {
      LogLines.FramingRoundTrip(f, items, raw, timestamps, flags);
      ItemsOfSuffix(f, items, raw, got);
      TailEndsSession(f, got, items, w);
    }
  }
}
