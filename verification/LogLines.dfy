/** parseLogLines: runtime framing stripped, and split lines put back together per stream. */
module LogLines {
  import opened Bytes

  const STDOUT: Text := [115, 116, 100, 111, 117, 116]
  const STDERR: Text := [115, 116, 100, 101, 114, 114]
  const UNFRAMED: Text := []
  const TAG_FULL: Text := [70]
  const TAG_PARTIAL: Text := [80]
  const BRACE: byte := 123

  /** What encoding/json finds in a line: the "log" member, if any, and the "stream" member. */
  datatype DockerEntry = DockerEntry(log: Option<Text>, stream: Text)

  /** The library parsers the code calls: time.Parse with RFC 3339 (nanoseconds), and JSON decoding. */
  datatype Formats = Formats(isTimestamp: Text -> bool, decodeJson: Text -> Option<DockerEntry>)

  /** A line with its framing removed; a Part continues on a later line of the same stream. */
  datatype Item = Part(stream: Text, message: Text) | Whole(stream: Text, message: Text)

  function ParseDockerLogLine(f: Formats, line: Text): (r: Option<Text>)
  {
    if !HasPrefix(line, [BRACE]) then None
    else match f.decodeJson(line)
      case None => None
      case Some(entry) =>
        if entry.stream != STDOUT && entry.stream != STDERR then None
        else if entry.log.None? then None
        else Some(TrimSuffix(entry.log.value, [NEWLINE]))
  }

  function ParseCRILogLine(f: Formats, line: Text): (r: Option<Item>)
  {
    var first := Cut(line, [SPACE]);
    if !first.found then None
    else
      var second := Cut(first.after, [SPACE]);
      if !second.found then None
      else
        var third := Cut(second.after, [SPACE]);
        var tag, message := third.before, third.after;
        var stream := second.before;
        if stream != STDOUT && stream != STDERR then None
        else
          var baseTag := Cut(tag, [COLON]).before;
          if baseTag != TAG_FULL && baseTag != TAG_PARTIAL then None
          else if !f.isTimestamp(first.before) then None
          else if baseTag == TAG_PARTIAL then Some(Part(stream, message))
          else Some(Whole(stream, message))
  }

  /** A line as parseLogLines treats it: docker JSON, then CRI, then passed through as it is. */
  function Classify(f: Formats, line: Text): (item: Item)
  {
    match ParseDockerLogLine(f, line)
    case Some(entry) => Whole(UNFRAMED, entry)
    case None =>
      match ParseCRILogLine(f, line)
      case Some(item) => item
      case None => Whole(UNFRAMED, line)
  }

  /** A line is attributed to stdout, stderr or neither, and only the first two can be continued. */
  lemma ClassifyStream(f: Formats, line: Text)
    ensures var item := Classify(f, line);
            item.stream == STDOUT || item.stream == STDERR || (item.stream == UNFRAMED && item.Whole?)
  {
  }

  function Items(f: Formats, raw: seq<Text>): (items: seq<Item>)
    ensures |items| == |raw|
  {
    seq(|raw|, i requires 0 <= i < |raw| => Classify(f, raw[i]))
  }

  // ---------- Reassembly: the running state, and what it amounts to

  /** A completed line and the stream it came from. */
  datatype Emitted = Emitted(stream: Text, message: Text)

  datatype Assembly = Assembly(out: seq<Emitted>, open: map<Text, Text>)

  function OpenOr(open: map<Text, Text>, stream: Text): (t: Text)
  {
    if stream in open then open[stream] else []
  }

  function Step(a: Assembly, item: Item): (b: Assembly)
  {
    var text := OpenOr(a.open, item.stream) + item.message;
    match item
    case Part(stream, _) => a.(open := a.open[stream := text])
    case Whole(stream, _) => Assembly(a.out + [Emitted(stream, text)], a.open - {stream})
  }

  function Assemble(items: seq<Item>): (a: Assembly)
  {
    if items == [] then Assembly([], map[]) else Step(Assemble(DropLast(items)), Last(items))
  }

  function Messages(out: seq<Emitted>): (lines: seq<Text>)
    ensures |lines| == |out|
  {
    seq(|out|, i requires 0 <= i < |out| => out[i].message)
  }

  /** What is flushed at the end of the file, stderr before stdout. */
  function Unfinished(open: map<Text, Text>): (lines: seq<Text>)
  {
    (if STDERR in open then [open[STDERR]] else []) + (if STDOUT in open then [open[STDOUT]] else [])
  }

  function Parsed(items: seq<Item>): (lines: seq<Text>)
  {
    Messages(Assemble(items).out) + Unfinished(Assemble(items).open)
  }

  predicate KnownParts(items: seq<Item>) {
    forall i :: 0 <= i < |items| && items[i].Part? ==> items[i].stream == STDOUT || items[i].stream == STDERR
  }

  lemma ItemsHaveKnownParts(f: Formats, raw: seq<Text>)
    ensures KnownParts(Items(f, raw))
  {
    forall i | 0 <= i < |raw| && Items(f, raw)[i].Part?
      ensures Items(f, raw)[i].stream == STDOUT || Items(f, raw)[i].stream == STDERR
    {
      ClassifyStream(f, raw[i]);
    }
  }

  /** Unframed lines never leave anything open, and each line produces at most one line. */
  lemma {:induction false} AssembleBounds(items: seq<Item>)
    requires KnownParts(items)
    ensures Assemble(items).open.Keys <= {STDOUT, STDERR}
    ensures |Assemble(items).out| + |Assemble(items).open| <= |items|
  {
    if items != [] {
      AssembleBounds(DropLast(items));
      var a, item := Assemble(DropLast(items)), Last(items);
      var b := Step(a, item);
      if item.Part? {
        assert b.open.Keys == a.open.Keys + {item.stream};
      } else {
        assert b.open.Keys == a.open.Keys - {item.stream};
      }
    }
  }

  lemma UnfinishedCount(open: map<Text, Text>)
    requires open.Keys <= {STDOUT, STDERR}
    ensures |Unfinished(open)| == |open|
  {
    assert STDOUT[3] != STDERR[3];
    var present := (if STDERR in open then {STDERR} else {}) + (if STDOUT in open then {STDOUT} else {});
    assert open.Keys == present;
    assert |open| == |open.Keys|;
  }

  /** parseLogLines never returns more lines than it was given. */
  lemma ParsedCount(items: seq<Item>)
    requires KnownParts(items)
    ensures |Parsed(items)| <= |items|
  {
    AssembleBounds(items);
    UnfinishedCount(Assemble(items).open);
  }

  // ---------- The reference: look back from each terminating line

  /** The text of the s-lines since s last completed a line. */
  function Pending(items: seq<Item>, s: Text): (t: Text)
  {
    if items == [] then []
    else if Last(items).stream != s then Pending(DropLast(items), s)
    else if Last(items).Whole? then []
    else Pending(DropLast(items), s) + Last(items).message
  }

  /** s has written a Part since it last completed a line. */
  predicate HasPending(items: seq<Item>, s: Text)
  {
    items != [] && (if Last(items).stream != s then HasPending(DropLast(items), s) else Last(items).Part?)
  }

  /** One line per terminating item, in file order: what its stream had pending, followed by its own text. */
  function Expected(items: seq<Item>): (out: seq<Emitted>)
  {
    if items == [] then []
    else
      var item := Last(items);
      Expected(DropLast(items))
      + if item.Whole? then [Emitted(item.stream, Pending(DropLast(items), item.stream) + item.message)] else []
  }

  /** The map of open partials computes exactly that. */
  lemma {:induction false} AssembleIsExpected(items: seq<Item>)
    ensures Assemble(items).out == Expected(items)
    ensures forall s :: s in Assemble(items).open <==> HasPending(items, s)
    ensures forall s :: OpenOr(Assemble(items).open, s) == Pending(items, s)
  {
    if items != [] {
      AssembleIsExpected(DropLast(items));
      assert OpenOr(Assemble(DropLast(items)).open, Last(items).stream) == Pending(DropLast(items), Last(items).stream);
    }
  }

  // ---------- Streams do not interfere

  function Only(items: seq<Item>, s: Text): (r: seq<Item>)
  {
    if items == [] then []
    else Only(DropLast(items), s) + if Last(items).stream == s then [Last(items)] else []
  }

  function OnlyFrom(out: seq<Emitted>, s: Text): (r: seq<Emitted>)
  {
    if out == [] then []
    else OnlyFrom(DropLast(out), s) + if Last(out).stream == s then [Last(out)] else []
  }

  lemma OnlyFromSnoc(out: seq<Emitted>, e: Emitted, s: Text)
    ensures OnlyFrom(out + [e], s) == OnlyFrom(out, s) + if e.stream == s then [e] else []
  {
    assert DropLast(out + [e]) == out;
  }

  lemma AssembleSnoc(items: seq<Item>, item: Item)
    ensures Assemble(items + [item]) == Step(Assemble(items), item)
  {
    assert DropLast(items + [item]) == items;
  }

  /** However the streams are interleaved, the lines emitted for one stream, their order and what it leaves
      open are those obtained by parsing that stream's lines alone. */
  lemma {:induction false} StreamsDoNotInterfere(items: seq<Item>, s: Text)
    ensures OnlyFrom(Assemble(items).out, s) == Assemble(Only(items, s)).out
    ensures s in Assemble(items).open <==> s in Assemble(Only(items, s)).open
    ensures OpenOr(Assemble(items).open, s) == OpenOr(Assemble(Only(items, s)).open, s)
  {
    if items != [] {
      var init, item := DropLast(items), Last(items);
      StreamsDoNotInterfere(init, s);
      var a := Assemble(init);
      if item.stream == s {
        AssembleSnoc(Only(init, s), item);
      } else {
        assert Only(items, s) == Only(init, s);
      }
      if item.Whole? {
        OnlyFromSnoc(a.out, Emitted(item.stream, OpenOr(a.open, item.stream) + item.message), s);
      }
    }
  }

  // ---------- Round trip

  /** The CRI form of an item: timestamp, stream, tag with optional ":"-separated flags, message. */
  function Frame(timestamp: Text, flags: Text, item: Item): (line: Text)
  {
    var tag := (if item.Part? then TAG_PARTIAL else TAG_FULL) + flags;
    timestamp + [SPACE] + (item.stream + [SPACE] + (tag + [SPACE] + item.message))
  }

  /** The same without the last space, which is how some runtimes write an empty message. */
  function FrameBare(timestamp: Text, flags: Text, item: Item): (line: Text)
  {
    var tag := (if item.Part? then TAG_PARTIAL else TAG_FULL) + flags;
    timestamp + [SPACE] + (item.stream + [SPACE] + tag)
  }

  /** line is the CRI form of item, with this timestamp and these flags. */
  predicate IsFrame(f: Formats, line: Text, timestamp: Text, flags: Text, item: Item) {
    && f.isTimestamp(timestamp) && SPACE !in timestamp
    && (flags == [] || flags[0] == COLON) && SPACE !in flags
    && item.stream in {STDOUT, STDERR}
    && (line == Frame(timestamp, flags, item) || (item.message == [] && line == FrameBare(timestamp, flags, item)))
  }

  lemma TagOf(base: Text, flags: Text)
    requires base in {TAG_FULL, TAG_PARTIAL} && (flags == [] || flags[0] == COLON)
    ensures Cut(base + flags, [COLON]).before == base
  {
    if flags == [] {
      CutAt(base, COLON, []);
      assert base + flags == base;
    } else {
      CutAt(base, COLON, flags[1..]);
      assert base + flags == base + [COLON] + flags[1..];
    }
  }

  /** Classifying a framed line recovers what was framed. */
  lemma ClassifyFrame(f: Formats, timestamp: Text, flags: Text, item: Item, line: Text)
    requires IsFrame(f, line, timestamp, flags, item) && !HasPrefix(timestamp, [BRACE])
    ensures Classify(f, line) == item
  {
    var base := if item.Part? then TAG_PARTIAL else TAG_FULL;
    var tag := base + flags;
    var last := if line == Frame(timestamp, flags, item) then tag + [SPACE] + item.message else tag;
    CutAt(timestamp, SPACE, item.stream + [SPACE] + last);
    CutAt(item.stream, SPACE, last);
    CutAt(tag, SPACE, item.message);
    TagOf(base, flags);
    ParseFields(f, line, timestamp, item.stream, last, tag, item.message, base);
    NotJson(timestamp, item.stream + [SPACE] + last);
  }

  /** A line whose fields are these parses to the item they describe. */
  lemma ParseFields(f: Formats, line: Text, timestamp: Text, stream: Text, last: Text, tag: Text, message: Text,
                    base: Text)
    requires stream in {STDOUT, STDERR} && base in {TAG_FULL, TAG_PARTIAL} && f.isTimestamp(timestamp)
    requires Cut(line, [SPACE]) == CutResult(timestamp, stream + [SPACE] + last, true)
    requires Cut(stream + [SPACE] + last, [SPACE]) == CutResult(stream, last, true)
    requires Cut(last, [SPACE]).before == tag && Cut(last, [SPACE]).after == message
    requires Cut(tag, [COLON]).before == base
    ensures ParseCRILogLine(f, line)
            == Some(if base == TAG_PARTIAL then Part(stream, message) else Whole(stream, message))
  {
  }

  lemma NotJson(timestamp: Text, rest: Text)
    requires !HasPrefix(timestamp, [BRACE])
    ensures !HasPrefix(timestamp + [SPACE] + rest, [BRACE])
  {
    var line := timestamp + [SPACE] + rest;
    if timestamp == [] {
      assert line[0] == SPACE;
    } else {
      assert line[0] == timestamp[0];
      assert [BRACE][0] == BRACE;
    }
  }

  /** What precedes the first separator does not hold it. */
  lemma CutBeforeIsFree(s: Text, sep: byte)
    ensures sep !in Cut(s, [sep]).before
  {
    var before := Cut(s, [sep]).before;
    IndexIsFirst(s, [sep], 0);
    CutSpells(s, [sep]);
    forall j | 0 <= j < |before| ensures before[j] != sep {
      assert s[j..j + 1] == [s[j]];
      assert !OccursAt(s, [sep], j);
    }
  }

  lemma TagFlags(tag: Text) returns (flags: Text)
    ensures tag == Cut(tag, [COLON]).before + flags && (flags == [] || flags[0] == COLON)
  {
    var cut := Cut(tag, [COLON]);
    CutSpells(tag, [COLON]);
    flags := if cut.found then [COLON] + cut.after else [];
    assert tag == cut.before + flags;
  }

  /** Conversely, nothing but a CRI frame is taken for one. */
  lemma OnlyFramesAreRecognised(f: Formats, line: Text) returns (timestamp: Text, flags: Text)
    requires ParseCRILogLine(f, line).Some?
    ensures IsFrame(f, line, timestamp, flags, ParseCRILogLine(f, line).value)
  {
    var first := Cut(line, [SPACE]);
    var second := Cut(first.after, [SPACE]);
    var third := Cut(second.after, [SPACE]);
    timestamp := first.before;
    flags := TagFlags(third.before);
    CutSpells(line, [SPACE]);
    CutSpells(first.after, [SPACE]);
    CutSpells(second.after, [SPACE]);
    CutBeforeIsFree(line, SPACE);
    CutBeforeIsFree(second.after, SPACE);
    FrameShape(first, second, third, flags, line, ParseCRILogLine(f, line).value);
  }

  lemma FrameShape(first: CutResult, second: CutResult, third: CutResult, flags: Text, line: Text, item: Item)
    requires first.found && second.found && line == first.before + [SPACE] + first.after
    requires first.after == second.before + [SPACE] + second.after
    requires second.after == (if third.found then third.before + [SPACE] + third.after else third.before)
    requires third.found || third.after == []
    requires item.stream == second.before && item.message == third.after
    requires third.before == (if item.Part? then TAG_PARTIAL else TAG_FULL) + flags && SPACE !in third.before
    ensures SPACE !in flags
    ensures line == Frame(first.before, flags, item)
            || (item.message == [] && line == FrameBare(first.before, flags, item))
  {
    var tag := third.before;
    forall b | b in flags ensures b != SPACE {
      assert b in tag;
    }
  }

  function Parts(s: Text, pieces: seq<Text>): (items: seq<Item>)
    ensures |items| == |pieces|
  {
    seq(|pieces|, i requires 0 <= i < |pieces| => Part(s, pieces[i]))
  }

  /** A message split into one or more pieces: all but the last are Parts. */
  function SplitMessage(s: Text, pieces: seq<Text>): (items: seq<Item>)
    requires pieces != []
  {
    Parts(s, DropLast(pieces)) + [Whole(s, Last(pieces))]
  }

  /** Every message has at least one piece. */
  predicate AllSplit(messages: seq<seq<Text>>) {
    forall i :: 0 <= i < |messages| ==> messages[i] != []
  }

  /** What a stream writes: whole messages, each split somehow, then perhaps one it did not finish. */
  function Written(s: Text, messages: seq<seq<Text>>, cutOff: seq<Text>): (items: seq<Item>)
    requires AllSplit(messages)
  {
    if messages == [] then Parts(s, cutOff)
    else SplitMessage(s, messages[0]) + Written(s, messages[1..], cutOff)
  }

  function Completed(s: Text, messages: seq<seq<Text>>): (out: seq<Emitted>)
  {
    seq(|messages|, i requires 0 <= i < |messages| => Emitted(s, Concat(messages[i])))
  }

  function Continue(a: Assembly, items: seq<Item>): (b: Assembly)
  {
    if items == [] then a else Step(Continue(a, DropLast(items)), Last(items))
  }

  lemma {:induction false} ContinueConcat(a: Assembly, x: seq<Item>, y: seq<Item>)
    ensures Continue(a, x + y) == Continue(Continue(a, x), y)
  {
    if y == [] {
      assert x + y == x;
    } else {
      assert DropLast(x + y) == x + DropLast(y);
      ContinueConcat(a, x, DropLast(y));
    }
  }

  lemma {:induction false} AssembleIsContinue(items: seq<Item>)
    ensures Assemble(items) == Continue(Assembly([], map[]), items)
  {
    if items != [] {
      AssembleIsContinue(DropLast(items));
    }
  }

  lemma {:induction false} ContinueParts(out: seq<Emitted>, s: Text, pieces: seq<Text>)
    ensures Continue(Assembly(out, map[]), Parts(s, pieces))
         == Assembly(out, if pieces == [] then map[] else map[s := Concat(pieces)])
  {
    if pieces != [] {
      assert DropLast(Parts(s, pieces)) == Parts(s, DropLast(pieces));
      ContinueParts(out, s, DropLast(pieces));
      ConcatSnoc(DropLast(pieces), Last(pieces));
      assert DropLast(pieces) + [Last(pieces)] == pieces;
      assert Concat([]) + Last(pieces) == Last(pieces);
    }
  }

  lemma ContinueMessage(out: seq<Emitted>, s: Text, pieces: seq<Text>)
    requires pieces != []
    ensures Continue(Assembly(out, map[]), SplitMessage(s, pieces))
            == Assembly(out + [Emitted(s, Concat(pieces))], map[])
  {
    var init, last := DropLast(pieces), Last(pieces);
    var items := SplitMessage(s, pieces);
    assert DropLast(items) == Parts(s, init) && Last(items) == Whole(s, last);
    ContinueParts(out, s, init);
    assert init + [last] == pieces;
    ConcatSnoc(init, last);
    CloseMessage(out, s, init, last);
  }

  lemma CloseMessage(out: seq<Emitted>, s: Text, init: seq<Text>, last: Text)
    ensures Step(Assembly(out, if init == [] then map[] else map[s := Concat(init)]), Whole(s, last))
         == Assembly(out + [Emitted(s, Concat(init) + last)], map[])
  {
    var open: map<Text, Text> := if init == [] then map[] else map[s := Concat(init)];
    assert OpenOr(open, s) == Concat(init);
    assert open - {s} == map[];
  }

  /** One stream alone: its messages come back whole and in order, and the unfinished one is left open. */
  lemma {:induction false} WrittenRoundTrip(out: seq<Emitted>, s: Text, messages: seq<seq<Text>>, cutOff: seq<Text>)
    requires AllSplit(messages)
    ensures Continue(Assembly(out, map[]), Written(s, messages, cutOff))
         == Assembly(out + Completed(s, messages), if cutOff == [] then map[] else map[s := Concat(cutOff)])
    decreases |messages|
  {
    if messages == [] {
      ContinueParts(out, s, cutOff);
      assert out + Completed(s, messages) == out;
    } else {
      ContinueConcat(Assembly(out, map[]), SplitMessage(s, messages[0]), Written(s, messages[1..], cutOff));
      ContinueMessage(out, s, messages[0]);
      var out' := out + [Emitted(s, Concat(messages[0]))];
      WrittenRoundTrip(out', s, messages[1..], cutOff);
      assert out' + Completed(s, messages[1..]) == out + Completed(s, messages);
    }
  }

  /** What each stream wrote, and the file the runtime made of it. */
  datatype Session = Session(
    outMessages: seq<seq<Text>>, outCutOff: seq<Text>, errMessages: seq<seq<Text>>, errCutOff: seq<Text>)

  predicate Wrote(w: Session, items: seq<Item>) {
    && AllSplit(w.outMessages) && AllSplit(w.errMessages)
    && Only(items, STDOUT) == Written(STDOUT, w.outMessages, w.outCutOff)
    && Only(items, STDERR) == Written(STDERR, w.errMessages, w.errCutOff)
  }

  predicate Framed(f: Formats, items: seq<Item>, raw: seq<Text>, timestamps: seq<Text>, flags: seq<Text>) {
    && |raw| == |items| == |timestamps| == |flags|
    && forall i :: 0 <= i < |raw| ==>
         IsFrame(f, raw[i], timestamps[i], flags[i], items[i]) && !HasPrefix(timestamps[i], [BRACE])
  }

  lemma FramingRoundTrip(f: Formats, items: seq<Item>, raw: seq<Text>, timestamps: seq<Text>, flags: seq<Text>)
    requires Framed(f, items, raw, timestamps, flags)
    ensures Items(f, raw) == items
  {
    forall i | 0 <= i < |raw| ensures Classify(f, raw[i]) == items[i] {
      ClassifyFrame(f, timestamps[i], flags[i], items[i], raw[i]);
    }
  }

  lemma StreamRoundTrip(items: seq<Item>, s: Text, messages: seq<seq<Text>>, cutOff: seq<Text>)
    requires AllSplit(messages)
    requires Only(items, s) == Written(s, messages, cutOff)
    ensures OnlyFrom(Assemble(items).out, s) == Completed(s, messages)
    ensures s in Assemble(items).open <==> cutOff != []
    ensures cutOff != [] ==> Assemble(items).open[s] == Concat(cutOff)
  {
    StreamsDoNotInterfere(items, s);
    AssembleIsContinue(Only(items, s));
    WrittenRoundTrip([], s, messages, cutOff);
    assert [] + Completed(s, messages) == Completed(s, messages);
  }

  /** What is flushed at the end of a file that the two streams wrote. */
  lemma UnfinishedRoundTrip(w: Session, items: seq<Item>)
    requires Wrote(w, items)
    ensures Unfinished(Assemble(items).open) == (if w.errCutOff == [] then [] else [Concat(w.errCutOff)])
                                                + (if w.outCutOff == [] then [] else [Concat(w.outCutOff)])
  {
    StreamRoundTrip(items, STDOUT, w.outMessages, w.outCutOff);
    StreamRoundTrip(items, STDERR, w.errMessages, w.errCutOff);
  }

  /** Round trip: however two streams' messages are split into chunks, framed and interleaved, parsing the
      raw lines returns each stream's messages whole and in its order, all of them in the order of their
      terminating lines, and then the unfinished ones, stderr before stdout. */
  lemma RoundTrip(f: Formats, w: Session, items: seq<Item>, raw: seq<Text>, timestamps: seq<Text>, flags: seq<Text>)
    requires Wrote(w, items)
    requires Framed(f, items, raw, timestamps, flags)
    ensures Items(f, raw) == items
    ensures OnlyFrom(Assemble(items).out, STDOUT) == Completed(STDOUT, w.outMessages)
    ensures OnlyFrom(Assemble(items).out, STDERR) == Completed(STDERR, w.errMessages)
    ensures Assemble(items).out == Expected(items)
    ensures Parsed(Items(f, raw)) == Messages(Assemble(items).out)
                                     + ((if w.errCutOff == [] then [] else [Concat(w.errCutOff)])
                                        + (if w.outCutOff == [] then [] else [Concat(w.outCutOff)]))
  {
    assert Items(f, raw) == items by {
      FramingRoundTrip(f, items, raw, timestamps, flags);
    }
    assert OnlyFrom(Assemble(items).out, STDOUT) == Completed(STDOUT, w.outMessages) by {
      StreamRoundTrip(items, STDOUT, w.outMessages, w.outCutOff);
    }
    assert OnlyFrom(Assemble(items).out, STDERR) == Completed(STDERR, w.errMessages) by {
      StreamRoundTrip(items, STDERR, w.errMessages, w.errCutOff);
    }
    assert Assemble(items).out == Expected(items) by {
      AssembleIsExpected(items);
    }
    UnfinishedRoundTrip(w, items);
  }

  // ---------- Parsing the end of a file

  /** The first message with p put in front. */
  function Prepended(p: Text, out: seq<Emitted>): (r: seq<Emitted>)
  {
    if out == [] then [] else [Emitted(out[0].stream, p + out[0].message)] + out[1..]
  }

  lemma PrependedSnoc(p: Text, out: seq<Emitted>, e: Emitted, e': Emitted)
    requires e'.stream == e.stream && e'.message == (if out == [] then p else []) + e.message
    ensures Prepended(p, out + [e]) == Prepended(p, out) + [e']
  {
    if out == [] {
      assert out + [e] == [e];
    } else {
      assert (out + [e])[1..] == out[1..] + [e];
      assert e' == e;
    }
  }

  /** One stream's part of the running state: what it has emitted, and what it has open. */
  datatype View = View(out: seq<Emitted>, open: bool, text: Text)

  function ViewOf(a: Assembly, s: Text): (v: View)
  {
    View(OnlyFrom(a.out, s), s in a.open, OpenOr(a.open, s))
  }

  function ViewStep(v: View, item: Item): (w: View)
  {
    if item.Part? then v.(open := true, text := v.text + item.message)
    else View(v.out + [Emitted(item.stream, v.text + item.message)], false, [])
  }

  /** A step changes the view of its own stream and of no other. */
  lemma StepIsViewStep(a: Assembly, item: Item, s: Text)
    ensures ViewOf(Step(a, item), s) == if item.stream == s then ViewStep(ViewOf(a, s), item) else ViewOf(a, s)
  {
    if item.Whole? {
      OnlyFromSnoc(a.out, Emitted(item.stream, OpenOr(a.open, item.stream) + item.message), s);
    }
  }

  /** What the front of a file adds to what its end alone gives: its own messages, and its unfinished text in
      front of whatever the end first completes or leaves open. */
  predicate Joined(front: View, end: View, all: View) {
    && all.out == front.out + Prepended(front.text, end.out)
    && (all.open <==> end.open || (end.out == [] && front.open))
    && all.text == (if end.out == [] then front.text else []) + end.text
  }

  lemma JoinedStep(front: View, end: View, all: View, item: Item)
    requires Joined(front, end, all)
    ensures Joined(front, ViewStep(end, item), ViewStep(all, item))
  {
    var lost := if end.out == [] then front.text else [];
    assert all.text + item.message == lost + (end.text + item.message);
    if item.Whole? {
      PrependedSnoc(front.text, end.out, Emitted(item.stream, end.text + item.message),
                    Emitted(item.stream, all.text + item.message));
    }
  }

  lemma JoinedNext(front: Assembly, end: Assembly, all: Assembly, item: Item, s: Text)
    requires Joined(ViewOf(front, s), ViewOf(end, s), ViewOf(all, s))
    ensures Joined(ViewOf(front, s), ViewOf(Step(end, item), s), ViewOf(Step(all, item), s))
  {
    StepIsViewStep(end, item, s);
    StepIsViewStep(all, item, s);
    JoinedStep(ViewOf(front, s), ViewOf(end, s), ViewOf(all, s), item);
  }

  lemma JoinedNothing(front: View)
    ensures Joined(front, View([], false, []), front)
  {
    assert front.out + [] == front.out && front.text + [] == front.text;
  }

  ghost predicate JoinedAt(x: seq<Item>, y: seq<Item>, s: Text) {
    Joined(ViewOf(Assemble(x), s), ViewOf(Assemble(y), s), ViewOf(Assemble(x + y), s))
  }

  lemma JoinedAtSnoc(x: seq<Item>, y: seq<Item>, item: Item, s: Text)
    requires JoinedAt(x, y, s)
    ensures JoinedAt(x, y + [item], s)
  {
    JoinedNext(Assemble(x), Assemble(y), Assemble(x + y), item, s);
    assert Assemble(y + [item]) == Step(Assemble(y), item) by {
      AssembleSnoc(y, item);
    }
    assert Assemble(x + (y + [item])) == Step(Assemble(x + y), item) by {
      AssembleSnoc(x + y, item);
      assert x + (y + [item]) == (x + y) + [item];
    }
  }

  lemma {:induction false} EndOfStream(x: seq<Item>, y: seq<Item>, s: Text)
    ensures JoinedAt(x, y, s)
  {
    if y == [] {
      assert x + y == x;
      JoinedNothing(ViewOf(Assemble(x), s));
    } else {
      EndOfStream(x, DropLast(y), s);
      JoinedAtSnoc(x, DropLast(y), Last(y), s);
      assert DropLast(y) + [Last(y)] == y;
    }
  }

  /** cut is the end of whole: its last messages, of which only the first may itself be cut to its own end. */
  predicate IsEndOf(cut: seq<Emitted>, whole: seq<Emitted>) {
    && |cut| <= |whole|
    && (cut != [] ==> var m := whole[|whole| - |cut|]; cut[0].stream == m.stream && IsSuffix(cut[0].message, m.message))
    && (forall i :: 0 < i < |cut| ==> cut[i] == whole[|whole| - |cut| + i])
  }

  lemma PrependedEnds(front: seq<Emitted>, p: Text, out: seq<Emitted>)
    ensures IsEndOf(out, front + Prepended(p, out))
  {
    if out != [] {
      var whole := front + Prepended(p, out);
      assert whole[|front|].message == p + out[0].message;
      assert (p + out[0].message)[|p|..] == out[0].message;
    }
  }

  /** How many messages of a stream end among these items. */
  function Completions(items: seq<Item>, s: Text): (n: nat)
  {
    if items == [] then 0
    else Completions(DropLast(items), s) + if Last(items).Whole? && Last(items).stream == s then 1 else 0
  }

  /** Each of them is emitted, and nothing else is. */
  lemma {:induction false} CompletionsAreEmitted(items: seq<Item>, s: Text)
    ensures |OnlyFrom(Assemble(items).out, s)| == Completions(items, s)
  {
    if items != [] {
      var init, item := DropLast(items), Last(items);
      CompletionsAreEmitted(init, s);
      if item.Whole? {
        var a := Assemble(init);
        OnlyFromSnoc(a.out, Emitted(item.stream, OpenOr(a.open, item.stream) + item.message), s);
      }
    }
  }

  /** end holds, for stream s, the end of what was written to it: every message that ends in these items and no
      other, and of an unfinished message its end, exactly when part of it is there. */
  predicate EndsStream(end: Assembly, items: seq<Item>, s: Text, messages: seq<seq<Text>>, cutOff: seq<Text>) {
    && IsEndOf(OnlyFrom(end.out, s), Completed(s, messages))
    && |OnlyFrom(end.out, s)| == Completions(items, s)
    && (s in end.open <==> HasPending(items, s))
    && (s in end.open ==> cutOff != [] && IsSuffix(end.open[s], Concat(cutOff)))
  }

  /** Parsing only the end of a file gives that of every stream. */
  lemma EndOfFileParses(items: seq<Item>, m: nat, s: Text, messages: seq<seq<Text>>, cutOff: seq<Text>)
    requires m <= |items| && AllSplit(messages) && Only(items, s) == Written(s, messages, cutOff)
    ensures EndsStream(Assemble(items[m..]), items[m..], s, messages, cutOff)
  {
    var x, y := items[..m], items[m..];
    assert x + y == items;
    StreamRoundTrip(items, s, messages, cutOff);
    EndOfStream(x, y, s);
    CompletionsAreEmitted(y, s);
    AssembleIsExpected(y);
    var out, lost := OnlyFrom(Assemble(y).out, s), OpenOr(Assemble(x).open, s);
    PrependedEnds(OnlyFrom(Assemble(x).out, s), lost, out);
    if s in Assemble(y).open {
      var kept := if out == [] then lost else [];
      assert Concat(cutOff) == kept + Assemble(y).open[s];
      assert (kept + Assemble(y).open[s])[|kept|..] == Assemble(y).open[s];
    }
  }

  /** The same of a whole session. */
  predicate EndsSession(end: Assembly, items: seq<Item>, w: Session) {
    && EndsStream(end, items, STDOUT, w.outMessages, w.outCutOff)
    && EndsStream(end, items, STDERR, w.errMessages, w.errCutOff)
  }

  lemma EndOfSessionParses(items: seq<Item>, m: nat, w: Session)
    requires m <= |items| && Wrote(w, items)
    ensures EndsSession(Assemble(items[m..]), items[m..], w)
  {
    EndOfFileParses(items, m, STDOUT, w.outMessages, w.outCutOff);
    EndOfFileParses(items, m, STDERR, w.errMessages, w.errCutOff);
  }

  // ---------- parseLogLines

  /** Byte-wise order, as sort.Strings uses. */
  predicate LexLess(a: Text, b: Text)
  {
    if a == [] then b != []
    else b != [] && (a[0] < b[0] || (a[0] == b[0] && LexLess(a[1..], b[1..])))
  }

  lemma StderrSortsFirst()
    ensures LexLess(STDERR, STDOUT)
  {
    assert STDERR[1..][1..][1..] == STDERR[3..] && STDOUT[1..][1..][1..] == STDOUT[3..];
    assert LexLess(STDERR[3..], STDOUT[3..]);
    assert LexLess(STDERR[1..][1..], STDOUT[1..][1..]);
    assert LexLess(STDERR[1..], STDOUT[1..]);
  }

  predicate Ascending(names: seq<Text>) {
    forall i, j :: 0 <= i < j < |names| ==> LexLess(names[i], names[j])
  }

  /** The names of the open streams, sorted. */
  method OpenStreams(partials: map<Text, Text>) returns (names: seq<Text>)
    requires partials.Keys <= {STDOUT, STDERR}
    ensures Ascending(names) && (forall n :: n in names <==> n in partials)
    ensures Unfinished(partials)
            == seq(|names|, i requires 0 <= i < |names| && names[i] in partials => partials[names[i]])
  {
    StderrSortsFirst();
    names := [];
    if STDERR in partials {
      names := names + [STDERR];
    }
    if STDOUT in partials {
      names := names + [STDOUT];
    }
  }

  method ParseLogLines(f: Formats, raw: seq<Text>) returns (out: seq<Text>)
    ensures out == Parsed(Items(f, raw))
    ensures |out| <= |raw|
  {
    var partials;
    out, partials := ParseLines(f, raw);
    ItemsHaveKnownParts(f, raw);
    AssembleBounds(Items(f, raw));
    ParsedCount(Items(f, raw));
    out := EmitOpen(out, partials);
  }

  method ParseLines(f: Formats, raw: seq<Text>) returns (out: seq<Text>, partials: map<Text, Text>)
    ensures Tracks(Assemble(Items(f, raw)), out, partials)
  {
    out, partials := [], map[];
    for k := 0 to |raw|
      invariant Tracks(Assemble(Items(f, raw[..k])), out, partials)
    {
      ghost var out0, partials0 := out, partials;
      out, partials := ParseLine(f, raw[k], out, partials);
      TracksNext(f, raw, k, out0, partials0, out, partials);
    }
    assert raw[..|raw|] == raw;
  }

  lemma TracksNext(f: Formats, raw: seq<Text>, k: nat, out: seq<Text>, partials: map<Text, Text>,
                   out': seq<Text>, partials': map<Text, Text>)
    requires k < |raw| && Tracks(Assemble(Items(f, raw[..k])), out, partials)
    requires Updated(Classify(f, raw[k]), out, partials, out', partials')
    ensures Tracks(Assemble(Items(f, raw[..k + 1])), out', partials')
  {
    UpdatedTracks(Assemble(Items(f, raw[..k])), Classify(f, raw[k]), out, partials, out', partials');
    AssembleNext(f, raw, k);
  }

  lemma AssembleNext(f: Formats, raw: seq<Text>, k: nat)
    requires k < |raw|
    ensures Assemble(Items(f, raw[..k + 1])) == Step(Assemble(Items(f, raw[..k])), Classify(f, raw[k]))
  {
    assert raw[..k + 1] == raw[..k] + [raw[k]];
    ItemsSnoc(f, raw[..k], raw[k]);
  }

  lemma ItemsSnoc(f: Formats, raw: seq<Text>, line: Text)
    ensures Assemble(Items(f, raw + [line])) == Step(Assemble(Items(f, raw)), Classify(f, line))
  {
    assert Items(f, raw + [line]) == Items(f, raw) + [Classify(f, line)];
    AssembleSnoc(Items(f, raw), Classify(f, line));
  }

  /** What the container was killed in the middle of is emitted rather than discarded. */
  method EmitOpen(done: seq<Text>, partials: map<Text, Text>) returns (out: seq<Text>)
    requires partials.Keys <= {STDOUT, STDERR}
    ensures out == done + Unfinished(partials)
  {
    out := done;
    var openStreams := OpenStreams(partials);
    for k := 0 to |openStreams|
      invariant out == done + Unfinished(partials)[..k]
    {
      assert openStreams[k] in openStreams;
      out := out + [partials[openStreams[k]]];
    }
  }

  /** The locals of the loop hold the running state. */
  predicate Tracks(a: Assembly, out: seq<Text>, partials: map<Text, Text>) {
    a.open == partials && Messages(a.out) == out
  }

  /** What one line does to them. */
  predicate Updated(item: Item, out: seq<Text>, partials: map<Text, Text>,
                    out': seq<Text>, partials': map<Text, Text>)
  {
    var text := OpenOr(partials, item.stream) + item.message;
    if item.Part? then out' == out && partials' == partials[item.stream := text]
    else out' == out + [text] && partials' == partials - {item.stream}
  }

  lemma UpdatedTracks(a: Assembly, item: Item, out: seq<Text>, partials: map<Text, Text>,
                      out': seq<Text>, partials': map<Text, Text>)
    requires Tracks(a, out, partials) && Updated(item, out, partials, out', partials')
    ensures Tracks(Step(a, item), out', partials')
  {
  }

  /** The body of the loop over raw lines. */
  method ParseLine(f: Formats, line: Text, out: seq<Text>, partials: map<Text, Text>)
    returns (out': seq<Text>, partials': map<Text, Text>)
    ensures Updated(Classify(f, line), out, partials, out', partials')
  {
    var docker := ParseDockerLogLine(f, line);
    if docker.Some? {
      out', partials' := Flush(out, partials, UNFRAMED, docker.value);
      return;
    }
    var cri := ParseCRILogLine(f, line);
    if cri.None? {
      out', partials' := Flush(out, partials, UNFRAMED, line);
      return;
    }
    var item := cri.value;
    if item.Part? {
      var b := if item.stream in partials then partials[item.stream] else [];
      out', partials' := out, partials[item.stream := b + item.message];
      return;
    }
    out', partials' := Flush(out, partials, item.stream, item.message);
  }

  /** flush: the message, behind whatever its stream had pending, becomes a line of the output. */
  method Flush(out: seq<Text>, partials: map<Text, Text>, stream: Text, message: Text)
    returns (out': seq<Text>, partials': map<Text, Text>)
    ensures out' == out + [OpenOr(partials, stream) + message]
    ensures partials' == partials - {stream}
  {
    if stream in partials {
      out' := out + [partials[stream] + message];
      partials' := partials - {stream};
      return;
    }
    out' := out + [message];
    partials' := partials;
    assert [] + message == message;
  }
}
