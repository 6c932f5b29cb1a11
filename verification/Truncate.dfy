/** truncateLines: captured lines bounded in length, total size and number, on character boundaries. */
module Truncate {
  import opened Bytes
  import opened Utf8

  const MAX_LOG_LINE_BYTES := 2048
  const MAX_LOG_TOTAL_BYTES := 64 * 1024
  const MAX_LOG_LINES := 200

  /** "…[truncated]" */
  const MARKER: Text := [0xE2, 0x80, 0xA6, 91, 116, 114, 117, 110, 99, 97, 116, 101, 100, 93]

  lemma MarkerIsValid()
    ensures Valid(MARKER) && |MARKER| == 14
  {
    assert FirstRune(MARKER) == 3;
    AsciiIsValid(MARKER[3..]);
  }

  // ---------- trimToValidUTF8

  /** Where the cut lands: the last offset at or before limit that starts a character, or 0. */
  function CutPoint(s: Text, limit: nat): (k: nat)
    requires limit < |s|
    ensures k <= limit && (k == 0 || RuneStart(s[k]))
    ensures forall i :: k < i <= limit ==> !RuneStart(s[i])
  {
    if limit > 0 && !RuneStart(s[limit]) then CutPoint(s, limit - 1) else limit
  }

  function Trimmed(s: Text, limit: nat): (r: Text)
    ensures |r| <= limit && r <= s
  {
    if |s| <= limit then s else s[..CutPoint(s, limit)]
  }

  method TrimToValidUTF8(s: Text, limit: nat) returns (r: Text)
    ensures r == Trimmed(s, limit)
  {
    if |s| <= limit {
      return s;
    }
    var cut := limit;
    while cut > 0 && !RuneStart(s[cut])
      invariant 0 <= cut <= limit && CutPoint(s, cut) == CutPoint(s, limit)
    {
      cut := cut - 1;
    }
    return s[..cut];
  }

  /** Of a valid text, the cut keeps the longest valid prefix within the limit, losing at most three bytes. */
  lemma TrimmedIsLongest(s: Text, limit: nat)
    requires Valid(s)
    ensures Valid(Trimmed(s, limit))
    ensures forall k :: |Trimmed(s, limit)| < k <= limit && k <= |s| ==> !Valid(s[..k])
    ensures |s| > limit ==> |Trimmed(s, limit)| + 3 >= limit
  {
    if |s| > limit {
      var cut := CutPoint(s, limit);
      CutIffBoundary(s, cut);
      forall k | cut < k <= limit ensures !Valid(s[..k]) {
        CutIffBoundary(s, k);
      }
      // The character at the cut is at most four bytes long, and the next one starts past the limit.
      var next := cut + FirstRune(s[cut..]);
      assert s[next..] == s[cut..][FirstRune(s[cut..])..];
      CutIffBoundary(s, next);
    }
  }

  // ---------- truncateLines

  function Shortened(line: Text): (r: Text)
  {
    if |line| > MAX_LOG_LINE_BYTES then Trimmed(line, MAX_LOG_LINE_BYTES) + MARKER else line
  }

  function ShortenedLines(lines: seq<Text>): (r: seq<Text>)
    ensures |r| == |lines|
  {
    seq(|lines|, i requires 0 <= i < |lines| => Shortened(lines[i]))
  }

  /** How many of the lines, from the first, fit the budget together. */
  function Fit(lines: seq<Text>, budget: int): (k: nat)
    ensures k <= |lines|
  {
    if lines == [] || |lines[0]| > budget then 0 else 1 + Fit(lines[1..], budget - |lines[0]|)
  }

  lemma {:induction false} FitIsLongest(lines: seq<Text>, budget: nat)
    ensures TotalLen(lines[..Fit(lines, budget)]) <= budget
    ensures forall k :: Fit(lines, budget) < k <= |lines| ==> TotalLen(lines[..k]) > budget
  {
    if lines != [] {
      if |lines[0]| <= budget {
        FitIsLongest(lines[1..], budget - |lines[0]|);
      }
      forall k | 0 < k <= |lines| ensures TotalLen(lines[..k]) == |lines[0]| + TotalLen(lines[1..][..k - 1]) {
        assert lines[..k][1..] == lines[1..][..k - 1];
      }
    }
  }

  /** The lines that are considered: all of them, or the last 199 when there are more than 200. */
  function Kept(lines: seq<Text>): (r: seq<Text>)
  {
    if |lines| > MAX_LOG_LINES then lines[|lines| - (MAX_LOG_LINES - 1)..] else lines
  }

  function Budget(lines: seq<Text>): (n: int)
  {
    if |lines| > MAX_LOG_LINES then MAX_LOG_TOTAL_BYTES - |MARKER| else MAX_LOG_TOTAL_BYTES
  }

  function Body(lines: seq<Text>, budget: int): (r: seq<Text>)
  {
    var k := Fit(lines, budget);
    lines[..k] + if k < |lines| then [MARKER] else []
  }

  /** A marker if lines were dropped, the longest fitting prefix of the shortened kept lines, a marker if cut. */
  function Truncated(lines: seq<Text>): (r: seq<Text>)
  {
    (if |lines| > MAX_LOG_LINES then [MARKER] else []) + Body(ShortenedLines(Kept(lines)), Budget(lines))
  }

  method TruncateLines(lines: seq<Text>) returns (out: seq<Text>)
    ensures out == Truncated(lines)
  {
    if |lines| == 0 {
      return lines;
    }
    var kept := lines;
    var dropped := false;
    var budget := MAX_LOG_TOTAL_BYTES;
    if |lines| > MAX_LOG_LINES {
      kept := lines[|lines| - (MAX_LOG_LINES - 1)..];
      dropped := true;
      budget := budget - |MARKER|;
    }
    out := FillBudget(kept, budget);
    if dropped {
      out := [MARKER] + out;
    }
  }

  method FillBudget(lines: seq<Text>, budget: nat) returns (out: seq<Text>)
    ensures out == Body(ShortenedLines(lines), budget)
  {
    out := [];
    var total := 0;
    ghost var short := ShortenedLines(lines);
    for k := 0 to |lines|
      invariant out == short[..k] && 0 <= total <= budget
      invariant Fit(short, budget) == k + Fit(short[k..], budget - total)
    {
      var line := lines[k];
      if |line| > MAX_LOG_LINE_BYTES {
        var cut := TrimToValidUTF8(line, MAX_LOG_LINE_BYTES);
        line := cut + MARKER;
      }
      assert line == short[k] == short[k..][0];
      if total + |line| > budget {
        out := out + [MARKER];
        return;
      }
      assert short[k..][1..] == short[k + 1..];
      out := out + [line];
      total := total + |line|;
    }
  }

  // ---------- What the bounds amount to

  lemma ShortenedLen(line: Text)
    ensures |Shortened(line)| <= MAX_LOG_LINE_BYTES + |MARKER|
  {
  }

  lemma BodyBounds(lines: seq<Text>, budget: nat)
    requires forall i :: 0 <= i < |lines| ==> |lines[i]| <= MAX_LOG_LINE_BYTES + |MARKER|
    ensures |Body(lines, budget)| <= |lines|
    ensures TotalLen(Body(lines, budget)) <= budget + |MARKER|
    ensures forall i :: 0 <= i < |Body(lines, budget)| ==> |Body(lines, budget)[i]| <= MAX_LOG_LINE_BYTES + |MARKER|
  {
    FitIsLongest(lines, budget);
    var k := Fit(lines, budget);
    TotalLenConcat(lines[..k], if k < |lines| then [MARKER] else []);
    assert TotalLen([MARKER]) == |MARKER| + TotalLen([MARKER][1..]);
  }

  /** Whatever the input: at most 200 entries, 2048 bytes and a marker each, 64 KiB and a marker in all. */
  lemma TruncatedBounds(lines: seq<Text>)
    ensures |Truncated(lines)| <= MAX_LOG_LINES
    ensures forall i :: 0 <= i < |Truncated(lines)| ==> |Truncated(lines)[i]| <= MAX_LOG_LINE_BYTES + |MARKER|
    ensures TotalLen(Truncated(lines)) <= MAX_LOG_TOTAL_BYTES + |MARKER|
  {
    var short := ShortenedLines(Kept(lines));
    forall i | 0 <= i < |short| ensures |short[i]| <= MAX_LOG_LINE_BYTES + |MARKER| {
      ShortenedLen(Kept(lines)[i]);
    }
    BodyBounds(short, Budget(lines));
    TotalLenConcat([MARKER], Body(short, Budget(lines)));
    assert TotalLen([MARKER]) == |MARKER| + TotalLen([MARKER][1..]);
    assert [] + Body(short, Budget(lines)) == Body(short, Budget(lines));
  }

  predicate AllValid(lines: seq<Text>) {
    forall i :: 0 <= i < |lines| ==> Valid(lines[i])
  }

  lemma ShortenedIsValid(line: Text)
    requires Valid(line)
    ensures Valid(Shortened(line))
  {
    if |line| > MAX_LOG_LINE_BYTES {
      TrimmedIsLongest(line, MAX_LOG_LINE_BYTES);
      MarkerIsValid();
      ValidConcat(Trimmed(line, MAX_LOG_LINE_BYTES), MARKER);
    }
  }

  lemma ShortenedAreValid(lines: seq<Text>)
    requires AllValid(lines)
    ensures AllValid(ShortenedLines(lines))
  {
    forall i | 0 <= i < |lines| ensures Valid(ShortenedLines(lines)[i]) {
      ShortenedIsValid(lines[i]);
    }
  }

  lemma BodyIsValid(lines: seq<Text>, budget: int)
    requires AllValid(lines)
    ensures AllValid(Body(lines, budget))
  {
    MarkerIsValid();
  }

  /** Valid UTF-8 in, valid UTF-8 out, entry by entry. */
  lemma TruncatedIsValid(lines: seq<Text>)
    requires AllValid(lines)
    ensures AllValid(Truncated(lines))
  {
    var body := Body(ShortenedLines(Kept(lines)), Budget(lines));
    ShortenedAreValid(Kept(lines));
    BodyIsValid(ShortenedLines(Kept(lines)), Budget(lines));
    MarkerIsValid();
    assert |lines| <= MAX_LOG_LINES ==> Truncated(lines) == body;
  }

  // ---------- The byte budget keeps the oldest lines, not the newest

  lemma BodyCloses(lines: seq<Text>, budget: nat)
    requires lines != []
    ensures Body(lines, budget) != []
    ensures Last(Body(lines, budget)) == if TotalLen(lines) <= budget then Last(lines) else MARKER
  {
    FitIsLongest(lines, budget);
    assert lines[..|lines|] == lines;
  }

  /** The output closes with the newest line exactly when the considered lines, shortened, fit the budget
      together; otherwise it closes with the marker. */
  lemma NewestLineSurvivesIff(lines: seq<Text>)
    requires lines != [] && Shortened(Last(lines)) != MARKER
    ensures Truncated(lines) != []
    ensures Last(Truncated(lines)) == Shortened(Last(lines)) <==> TotalLen(ShortenedLines(Kept(lines))) <= Budget(lines)
    ensures Last(Truncated(lines)) == Shortened(Last(lines)) || Last(Truncated(lines)) == MARKER
  {
    var short := ShortenedLines(Kept(lines));
    BodyCloses(short, Budget(lines));
    assert Last(short) == Shortened(Last(lines));
  }

  lemma {:induction false} TotalLenUniform(lines: seq<Text>, n: nat)
    requires forall i :: 0 <= i < |lines| ==> |lines[i]| == n
    ensures TotalLen(lines) == |lines| * n
  {
    if lines != [] {
      TotalLenUniform(lines[1..], n);
    }
  }

  /** They need not fit, and then it is the newest line, the one closest to the kill, that is lost. */
  lemma NewestLineCanBeLost() returns (lines: seq<Text>)
    ensures AllValid(lines) && lines != [] && Last(lines) !in Truncated(lines)
  {
    var full: Text := seq(2048, _ => 97);
    var earlier := seq(32, _ => full);
    lines := earlier + [[98]];
    AsciiIsValid(full);
    AsciiIsValid([98]);
    assert ShortenedLines(Kept(lines)) == lines;
    TotalLenUniform(earlier, 2048);
    TotalLenConcat(earlier, [[98]]);
    assert lines[..32] == earlier && lines[..33] == lines;
    FitIsLongest(lines, MAX_LOG_TOTAL_BYTES);
    assert TotalLen([[98]]) == 1 + TotalLen([[98]][1..]);
    assert Fit(lines, MAX_LOG_TOTAL_BYTES) == 32;
    assert Truncated(lines) == earlier + [MARKER];
    assert |full| == 2048 && |MARKER| == 14;
  }
}
