/** The Slack message: escaping, and a log block cut from the front to fit a byte budget. */
module Slack {
  import opened Bytes
  import opened Utf8

  const AMP: byte := 38
  const LT: byte := 60
  const GT: byte := 62

  const AMP_ENTITY: Text := [38, 97, 109, 112, 59]
  const LT_ENTITY: Text := [38, 108, 116, 59]
  const GT_ENTITY: Text := [38, 103, 116, 59]

  const SLACK_MAX_TEXT_BYTES := 30000

  const ELLIPSIS: Text := [0xE2, 0x80, 0xA6]
  const EARLIER: Text := [91, 101, 97, 114, 108, 105, 101, 114]
  const LINES: Text := [32, 108, 105, 110, 101, 115]
  const TRUNCATED: Text := [32, 116, 114, 117, 110, 99, 97, 116, 101, 100, 93, 10]

  /** "…[earlier lines truncated]\n" */
  const MARKER: Text := ELLIPSIS + (EARLIER + (LINES + TRUNCATED))

  const FENCE: Text := [10, 96, 96, 96]
  const LAST_LOG: Text := [10, 42, 76, 97, 115, 116, 32, 108, 111, 103]

  /** "\n*Last log lines:*\n```\n" and "\n```", which surround the block. */
  const OPENING: Text := LAST_LOG + (LINES + ([58, 42] + (FENCE + [10])))
  const CLOSING: Text := FENCE

  /** ASCII without the three characters that Slack treats as markup. */
  predicate Plain(s: Text) {
    forall i :: 0 <= i < |s| ==> s[i] < 0x80 && s[i] != AMP && s[i] != LT && s[i] != GT
  }

  lemma PlainPieces()
    ensures Plain(EARLIER) && Plain(LINES) && Plain(FENCE) && |EARLIER| == 8 && |LINES| == 6 && |FENCE| == 4
  {
  }

  lemma MorePlainPieces()
    ensures Plain(TRUNCATED) && Plain(LAST_LOG) && |TRUNCATED| == 12 && |LAST_LOG| == 10
  {
  }

  /** The fixed texts are valid UTF-8 without markup; these are their lengths. */
  lemma FixedTexts()
    ensures Valid(MARKER) && Inert(MARKER) && |MARKER| == 29
    ensures Valid(OPENING) && Inert(OPENING) && |OPENING| == 23
    ensures Valid(CLOSING) && Inert(CLOSING) && |CLOSING| == 4
  {
    PlainPieces();
    MorePlainPieces();
    var rest := EARLIER + (LINES + TRUNCATED);
    assert Plain(rest) && Plain(OPENING);
    AsciiIsValid(rest);
    AsciiIsValid(OPENING);
    AsciiIsValid(CLOSING);
    EllipsisIsValid();
    ValidConcat(ELLIPSIS, rest);
  }

  lemma EllipsisIsValid()
    ensures Valid(ELLIPSIS) && |ELLIPSIS| == 3
  {
    assert FirstRune(ELLIPSIS) == 3;
    assert ELLIPSIS[3..] == [];
  }

  // ---------- escapeSlackText

  function EscapeByte(b: byte): (s: Text)
  {
    if b == AMP then AMP_ENTITY else if b == LT then LT_ENTITY else if b == GT then GT_ENTITY else [b]
  }

  function Escape(s: Text): (r: Text)
  {
    if s == [] then [] else EscapeByte(s[0]) + Escape(s[1..])
  }

  /** The entity at the start of s, decoded, with the bytes it takes; None when s does not start with one. */
  function Entity(s: Text): (e: Option<(byte, nat)>)
    ensures e.Some? ==> 0 < e.value.1 <= |s|
  {
    if AMP_ENTITY <= s then Some((AMP, 5))
    else if LT_ENTITY <= s then Some((LT, 4))
    else if GT_ENTITY <= s then Some((GT, 4))
    else None
  }

  /** What a reader of the message sees. */
  function Unescape(s: Text): (r: Text)
    decreases |s|
  {
    if s == [] then []
    else match Entity(s)
      case Some(e) => [e.0] + Unescape(s[e.1..])
      case None => [s[0]] + Unescape(s[1..])
  }

  lemma EntityOf(b: byte, rest: Text)
    ensures b == AMP ==> Entity(AMP_ENTITY + rest) == Some((AMP, 5)) && (AMP_ENTITY + rest)[5..] == rest
    ensures b == LT ==> Entity(LT_ENTITY + rest) == Some((LT, 4)) && (LT_ENTITY + rest)[4..] == rest
    ensures b == GT ==> Entity(GT_ENTITY + rest) == Some((GT, 4)) && (GT_ENTITY + rest)[4..] == rest
    ensures b != AMP ==> Entity([b] + rest) == None
  {
    var l, g := LT_ENTITY + rest, GT_ENTITY + rest;
    assert l[1] == 108 && g[1] == 103 && AMP_ENTITY[1] == 97 && LT_ENTITY[1] == 108;
    assert ([b] + rest)[0] == b && AMP_ENTITY[0] == LT_ENTITY[0] == GT_ENTITY[0] == AMP;
  }

  /** Escaping loses nothing: the text can be read back, so no two texts escape alike. */
  lemma {:induction false} UnescapeEscape(s: Text)
    ensures Unescape(Escape(s)) == s
  {
    if s != [] {
      UnescapeEscape(s[1..]);
      var rest := Escape(s[1..]);
      EntityOf(s[0], rest);
      assert ([s[0]] + rest)[1..] == rest;
      assert s == [s[0]] + s[1..];
    }
  }

  lemma EscapeIsInjective(s: Text, t: Text)
    requires Escape(s) == Escape(t)
    ensures s == t
  {
    UnescapeEscape(s);
    UnescapeEscape(t);
  }

  /** No markup survives: no angle bracket, and every ampersand begins a complete entity. */
  predicate Inert(s: Text) {
    forall i :: 0 <= i < |s| ==> s[i] != LT && s[i] != GT && (s[i] == AMP ==> Entity(s[i..]).Some?)
  }

  /** Entities are read forwards, so cutting from the front leaves inert text inert. */
  lemma InertSuffix(s: Text, i: nat)
    requires Inert(s) && i <= |s|
    ensures Inert(s[i..])
  {
    forall j | 0 <= j < |s| - i
      ensures s[i..][j] != LT && s[i..][j] != GT && (s[i..][j] == AMP ==> Entity(s[i..][j..]).Some?)
    {
      assert s[i..][j] == s[i + j] && s[i..][j..] == s[i + j..];
    }
  }

  lemma InertCons(b: byte, rest: Text)
    requires Inert(rest)
    ensures Inert(EscapeByte(b) + rest)
  {
    var e := EscapeByte(b);
    var s := e + rest;
    EntityOf(b, rest);
    forall i | 0 <= i < |s| ensures s[i] != LT && s[i] != GT && (s[i] == AMP ==> Entity(s[i..]).Some?) {
      if i >= |e| {
        assert s[i] == rest[i - |e|] && s[i..] == rest[i - |e|..];
      } else if i == 0 {
        assert s[0..] == s;
      } else {
        assert s[i] == e[i];
      }
    }
  }

  lemma {:induction false} EscapeIsInert(s: Text)
    ensures Inert(Escape(s))
  {
    if s != [] {
      EscapeIsInert(s[1..]);
      InertCons(s[0], Escape(s[1..]));
    }
  }

  // ---------- Escaping and UTF-8

  lemma {:induction false} EscapeConcat(a: Text, b: Text)
    ensures Escape(a + b) == Escape(a) + Escape(b)
  {
    if a == [] {
      assert a + b == b;
    } else {
      assert (a + b)[1..] == a[1..] + b;
      EscapeConcat(a[1..], b);
    }
  }

  lemma {:induction false} EscapeNonAscii(s: Text)
    requires forall i :: 0 <= i < |s| ==> s[i] >= 0x80
    ensures Escape(s) == s
  {
    if s != [] {
      EscapeNonAscii(s[1..]);
      assert s == [s[0]] + s[1..];
    }
  }

  lemma EscapeAscii(b: byte)
    requires b < 0x80
    ensures Valid(Escape([b]))
  {
    assert [b][1..] == [];
    assert Escape([b]) == EscapeByte(b) + [];
    AsciiIsValid(EscapeByte(b));
    assert EscapeByte(b) + [] == EscapeByte(b);
  }

  /** The bytes of a character are all ASCII, that is one, or all not. */
  lemma RuneBytes(s: Text)
    requires FirstRune(s) == |s| > 0
    ensures if s[0] < 0x80 then s == [s[0]] else forall i :: 0 <= i < |s| ==> s[i] >= 0x80
  {
  }

  lemma EscapeRune(s: Text)
    requires FirstRune(s) == |s| > 0
    ensures Valid(Escape(s))
  {
    RuneBytes(s);
    if s[0] < 0x80 {
      EscapeAscii(s[0]);
    } else {
      EscapeNonAscii(s);
      OneRune(s);
      assert s[..|s|] == s;
    }
  }

  /** Escaping keeps valid UTF-8 valid. */
  lemma {:induction false} EscapeIsValid(s: Text)
    requires Valid(s)
    ensures Valid(Escape(s))
    decreases |s|
  {
    if s != [] {
      var n := FirstRune(s);
      var head, tail := s[..n], s[n..];
      assert s == head + tail;
      FirstRunePrefix(s, n);
      EscapeRune(head);
      EscapeIsValid(tail);
      EscapeConcat(head, tail);
      ValidConcat(Escape(head), Escape(tail));
    }
  }

  // ---------- slackLogBlock

  /** The first offset at or after cut that is not inside a character. */
  function NextStart(s: Text, cut: nat): (k: nat)
    requires cut <= |s|
    ensures cut <= k <= |s| && Boundary(s, k)
    ensures forall j :: cut <= j < k ==> !RuneStart(s[j])
    decreases |s| - cut
  {
    if cut < |s| && !RuneStart(s[cut]) then NextStart(s, cut + 1) else cut
  }

  /** The offset of the first newline at or after `from`, or the length of s. */
  function NextNewline(s: Text, from: nat): (k: nat)
    requires from <= |s|
    ensures from <= k <= |s| && (k < |s| ==> s[k] == NEWLINE)
    ensures forall j :: from <= j < k ==> s[j] != NEWLINE
    decreases |s| - from
  {
    if from == |s| || s[from] == NEWLINE then from else NextNewline(s, from + 1)
  }

  /** k follows a line break or does not split a character. */
  predicate CleanCut(s: Text, k: nat)
    requires k <= |s|
  {
    Boundary(s, k) || (k > 0 && s[k - 1] == NEWLINE)
  }

  /** Where a cut block begins: past the next line break if one is there and something follows it. */
  function BlockStart(escaped: Text, cut: nat): (k: nat)
    requires cut <= |escaped|
    ensures cut <= k <= |escaped| && CleanCut(escaped, k)
  {
    var start := NextStart(escaped, cut);
    var newline := NextNewline(escaped, start);
    if newline < |escaped| - 1 then newline + 1 else start
  }

  /** The block begins at the first line that starts after the cut or, if none does, at the first character: no
      more of the log is given up than that. */
  lemma BlockStartIsFirst(escaped: Text, cut: nat, k: nat)
    requires cut <= |escaped| && k == BlockStart(escaped, cut)
    ensures forall j :: cut <= j < k - 1 ==> escaped[j] != NEWLINE
    ensures (k < |escaped| && k > cut && escaped[k - 1] == NEWLINE)
            || ((forall j :: cut <= j < k ==> !RuneStart(escaped[j])) &&
                (forall j :: k <= j < |escaped| - 1 ==> escaped[j] != NEWLINE))
  {
    var start := NextStart(escaped, cut);
    forall j | cut <= j < start ensures escaped[j] != NEWLINE {
      assert !RuneStart(escaped[j]);
    }
  }

  /** The kept end of a valid text is valid, and so is a valid marker followed by it. */
  lemma CleanCutIsValid(marker: Text, s: Text, k: nat)
    requires Valid(marker) && Valid(s) && k <= |s| && CleanCut(s, k)
    ensures Valid(marker + s[k..])
  {
    if Boundary(s, k) {
      CutAtBoundary(s, k);
    } else {
      AfterAscii(s, k - 1);
    }
    ValidConcat(marker, s[k..]);
  }

  /** The block: empty when even the marker does not fit, the whole text when it does, else marker and end. */
  function Block(marker: Text, escaped: Text, budget: int): (block: Text)
  {
    if budget <= |marker| then []
    else if |escaped| <= budget then escaped
    else marker + escaped[BlockStart(escaped, |escaped| - (budget - |marker|))..]
  }

  method SlackLogBlock(marker: Text, escaped: Text, budget: int) returns (block: Text)
    ensures block == Block(marker, escaped, budget)
  {
    if budget <= |marker| {
      return [];
    }
    if |escaped| <= budget {
      return escaped;
    }
    var keep := budget - |marker|;
    var cut := FindCut(escaped, |escaped| - keep);
    return marker + escaped[cut..];
  }

  /** Walk forward to a character boundary, and then past the next line break if something follows it. */
  method FindCut(escaped: Text, from: nat) returns (cut: nat)
    requires from <= |escaped|
    ensures cut == BlockStart(escaped, from)
  {
    cut := from;
    while cut < |escaped| && !RuneStart(escaped[cut])
      invariant from <= cut <= |escaped|
      invariant NextStart(escaped, cut) == NextStart(escaped, from)
    {
      cut := cut + 1;
    }
    var newline := NextNewline(escaped, cut);
    if newline < |escaped| - 1 {
      cut := newline + 1;
    }
  }

  lemma InertConcat(a: Text, b: Text)
    requires Inert(a) && Inert(b)
    ensures Inert(a + b)
  {
    var t := a + b;
    forall i | 0 <= i < |t| ensures t[i] != LT && t[i] != GT && (t[i] == AMP ==> Entity(t[i..]).Some?) {
      if i >= |a| {
        assert t[i] == b[i - |a|] && t[i..] == b[i - |a|..];
      } else {
        assert t[i] == a[i] && t[i..] == a[i..] + b;
        if t[i] == AMP {
          EntityExtends(a[i..], b);
        }
      }
    }
  }

  lemma EntityExtends(s: Text, t: Text)
    requires Entity(s).Some?
    ensures Entity(s + t).Some?
  {
  }

  /** The block fits its budget. */
  lemma BlockFits(marker: Text, escaped: Text, budget: int)
    ensures |Block(marker, escaped, budget)| <= (if budget < 0 then 0 else budget)
  {
  }

  /** The block carries no markup. */
  lemma BlockIsInert(marker: Text, escaped: Text, budget: int)
    requires Inert(marker) && Inert(escaped)
    ensures Inert(Block(marker, escaped, budget))
  {
    if budget > |marker| && |escaped| > budget {
      var k := BlockStart(escaped, |escaped| - (budget - |marker|));
      InertSuffix(escaped, k);
      InertConcat(marker, escaped[k..]);
    }
  }

  /** The block of a valid text is valid. */
  lemma BlockIsValid(marker: Text, escaped: Text, budget: int)
    requires Valid(marker) && Valid(escaped)
    ensures Valid(Block(marker, escaped, budget))
  {
    if budget > |marker| && |escaped| > budget {
      CleanCutIsValid(marker, escaped, BlockStart(escaped, |escaped| - (budget - |marker|)));
    }
  }

  // ---------- What the reader sees of a cut block

  /** The entity that begins at i goes on past k. */
  predicate Straddles(s: Text, i: nat, k: nat) {
    i < k <= |s| && Entity(s[i..]).Some? && k < i + Entity(s[i..]).value.1
  }

  /** A cut at k would split an entity. */
  ghost predicate InsideEntity(s: Text, k: nat) {
    exists i: nat :: Straddles(s, i, k)
  }

  /** The first j bytes of the log take up the first k of its escaped form. */
  predicate EndsAt(log: Text, j: nat, k: nat) {
    j <= |log| && |Escape(log[..j])| == k
  }

  /** Past the first escaped byte, entities straddle what they do without it. */
  lemma StraddlesLater(b: byte, rest: Text, i: nat, k: nat)
    requires k >= |EscapeByte(b)|
    ensures Straddles(EscapeByte(b) + rest, i, k) <==>
              i >= |EscapeByte(b)| && Straddles(rest, i - |EscapeByte(b)|, k - |EscapeByte(b)|)
  {
    var e := EscapeByte(b);
    var s := e + rest;
    EntityOf(b, rest);
    if i >= |e| {
      assert i <= |s| ==> s[i..] == rest[i - |e|..];
    } else if i == 0 {
      assert s[0..] == s;
    } else if i < |s| {
      assert s[i..][0] == e[i] != AMP;
      assert Entity(s[i..]).None?;
    }
  }

  lemma EndsLater(log: Text, j: nat, k: nat)
    requires log != [] && k > 0
    ensures EndsAt(log, j, k) <==>
              j > 0 && k >= |EscapeByte(log[0])| && EndsAt(log[1..], j - 1, k - |EscapeByte(log[0])|)
  {
    if 0 < j <= |log| {
      assert log[..j][1..] == log[1..][..j - 1];
    }
  }

  /** Some part of the log ends at k of its escaped form. */
  ghost predicate IsEnd(log: Text, k: nat) {
    exists j: nat :: EndsAt(log, j, k)
  }

  lemma IsEndLater(log: Text, k: nat)
    requires log != [] && k > 0
    ensures IsEnd(log, k) <==> k >= |EscapeByte(log[0])| && IsEnd(log[1..], k - |EscapeByte(log[0])|)
  {
    var n := |EscapeByte(log[0])|;
    if j: nat :| EndsAt(log, j, k) {
      EndsLater(log, j, k);
      assert EndsAt(log[1..], j - 1, k - n);
    }
    if k >= n {
      var k': nat := k - n;
      if j: nat :| EndsAt(log[1..], j, k') {
        EndsLater(log, j + 1, k);
        assert EndsAt(log, j + 1, k);
      }
    }
  }

  lemma InsideRest(b: byte, rest: Text, i: nat, k: nat)
    requires k >= |EscapeByte(b)| && Straddles(EscapeByte(b) + rest, i, k)
    ensures InsideEntity(rest, k - |EscapeByte(b)|)
  {
    StraddlesLater(b, rest, i, k);
    var i': nat, k': nat := i - |EscapeByte(b)|, k - |EscapeByte(b)|;
    assert Straddles(rest, i', k');
  }

  lemma InsideWhole(b: byte, rest: Text, i: nat, k: nat)
    requires Straddles(rest, i, k)
    ensures InsideEntity(EscapeByte(b) + rest, k + |EscapeByte(b)|)
  {
    StraddlesLater(b, rest, i + |EscapeByte(b)|, k + |EscapeByte(b)|);
    var i', k' := i + |EscapeByte(b)|, k + |EscapeByte(b)|;
    assert Straddles(EscapeByte(b) + rest, i', k');
  }

  lemma InsideLater(b: byte, rest: Text, k: nat)
    requires k >= |EscapeByte(b)|
    ensures InsideEntity(EscapeByte(b) + rest, k) <==> InsideEntity(rest, k - |EscapeByte(b)|)
  {
    var s, k': nat := EscapeByte(b) + rest, k - |EscapeByte(b)|;
    if InsideEntity(s, k) {
      var i: nat :| Straddles(s, i, k);
      InsideRest(b, rest, i, k);
    } else if InsideEntity(rest, k') {
      var i: nat :| Straddles(rest, i, k');
      InsideWhole(b, rest, i, k');
    }
  }

  lemma InsideFirst(b: byte, rest: Text, k: nat)
    requires 0 < k < |EscapeByte(b)|
    ensures InsideEntity(EscapeByte(b) + rest, k)
  {
    var s := EscapeByte(b) + rest;
    EntityOf(b, rest);
    assert s[0..] == s;
    assert Straddles(s, 0, k);
  }

  /** A place in the escaped text is the end of some part of the log exactly when it is not inside an entity. */
  lemma {:induction false} IsEndIff(log: Text, k: nat)
    requires k <= |Escape(log)|
    ensures IsEnd(log, k) <==> !InsideEntity(Escape(log), k)
  {
    if k == 0 {
      assert EndsAt(log, 0, 0);
    } else {
      var b, rest := log[0], log[1..];
      IsEndLater(log, k);
      if k < |EscapeByte(b)| {
        InsideFirst(b, Escape(rest), k);
      } else {
        InsideLater(b, Escape(rest), k);
        IsEndIff(rest, k - |EscapeByte(b)|);
      }
    }
  }

  /** What is kept from k on is the escaped form of an end of the log. */
  ghost predicate ShowsLogEnd(log: Text, k: nat)
    requires k <= |Escape(log)|
  {
    exists j: nat :: KeepsFrom(log, k, j)
  }

  predicate KeepsFrom(log: Text, k: nat, j: nat)
    requires k <= |Escape(log)|
  {
    j <= |log| && Escape(log)[k..] == Escape(log[j..])
  }

  lemma KeepsFromIff(log: Text, k: nat, j: nat)
    requires k <= |Escape(log)|
    ensures KeepsFrom(log, k, j) <==> EndsAt(log, j, k)
  {
    if j <= |log| {
      EscapeConcat(log[..j], log[j..]);
      assert log[..j] + log[j..] == log;
    }
  }

  /** The kept end shows an end of the log exactly when the cut splits no entity. */
  lemma ShowsLogEndIff(log: Text, k: nat)
    requires k <= |Escape(log)|
    ensures ShowsLogEnd(log, k) <==> !InsideEntity(Escape(log), k)
  {
    IsEndIff(log, k);
    if j: nat :| KeepsFrom(log, k, j) {
      KeepsFromIff(log, k, j);
      assert EndsAt(log, j, k);
    }
    if j: nat :| EndsAt(log, j, k) {
      KeepsFromIff(log, k, j);
      assert KeepsFrom(log, k, j);
    }
  }

  /** A cut after a line break splits none. */
  lemma LineBreakSplitsNothing(s: Text, k: nat)
    requires 0 < k <= |s| && s[k - 1] == NEWLINE
    ensures !InsideEntity(s, k)
  {
    forall i: nat | i < k ensures !Straddles(s, i, k) {
      assert s[i..][k - 1 - i] == NEWLINE;
    }
  }

  lemma CutBlock(marker: Text, escaped: Text, budget: int, k: nat)
    requires |marker| < budget < |escaped| && k == BlockStart(escaped, |escaped| - (budget - |marker|))
    ensures k <= |escaped| && Block(marker, escaped, budget) == marker + escaped[k..]
  {
  }

  lemma ShownAfterLineBreak(log: Text, k: nat)
    requires 0 < k <= |Escape(log)| && Escape(log)[k - 1] == NEWLINE
    ensures ShowsLogEnd(log, k)
  {
    LineBreakSplitsNothing(Escape(log), k);
    ShowsLogEndIff(log, k);
  }

  /** So a cut block shows the marker and an end of the log, and nothing the log did not hold, exactly when it was
      not cut inside an entity; in particular whenever it was cut at a line break. */
  lemma BlockShowsLogEndIff(marker: Text, log: Text, budget: int, k: nat)
    requires |marker| < budget < |Escape(log)|
    requires k == BlockStart(Escape(log), |Escape(log)| - (budget - |marker|))
    ensures k <= |Escape(log)| && Block(marker, Escape(log), budget) == marker + Escape(log)[k..]
    ensures ShowsLogEnd(log, k) <==> !InsideEntity(Escape(log), k)
    ensures k > 0 && Escape(log)[k - 1] == NEWLINE ==> ShowsLogEnd(log, k)
  {
    CutBlock(marker, Escape(log), budget, k);
    ShowsLogEndIff(log, k);
    if k > 0 && Escape(log)[k - 1] == NEWLINE {
      ShownAfterLineBreak(log, k);
    }
  }

  lemma {:induction false} EscapedAmps(n: nat)
    requires n > 0
    ensures var s := Escape(seq(n, _ => AMP)); |s| == 5 * n && s[|s| - 4..] == [97, 109, 112, 59] && NEWLINE !in s
  {
    var log: Text := seq(n, _ => AMP);
    assert log[1..] == seq(n - 1, _ => AMP);
    if n > 1 {
      EscapedAmps(n - 1);
    } else {
      assert AMP_ENTITY + [] == AMP_ENTITY;
    }
  }

  /** It can be: a log of nothing but ampersands, cut so that the reader sees "amp;", which it never held. */
  lemma CutCanSplitAnEntity(marker: Text) returns (log: Text, budget: nat)
    ensures Block(marker, Escape(log), budget) == marker + [97, 109, 112, 59] && (forall b <- log :: b == AMP)
  {
    log, budget := seq(|marker| + 1, _ => AMP), |marker| + 4;
    EscapedAmps(|marker| + 1);
    var s := Escape(log);
    assert s[|s| - 4] == s[|s| - 4..][0];
    assert NextStart(s, |s| - 4) == |s| - 4;
  }

  // ---------- The message

  /** What is left of the limit for the log block. */
  function LogBudget(base: Text): (n: int)
  {
    SLACK_MAX_TEXT_BYTES - |base| - (|OPENING| + |CLOSING|)
  }

  function LogBlock(base: Text, lastLogLines: seq<Text>): (block: Text)
  {
    Block(MARKER, Escape(Join(lastLogLines, NEWLINE)), LogBudget(base))
  }

  /** What Send makes of the message built so far and the log lines of the payload. */
  function Message(base: Text, lastLogLines: seq<Text>): (text: Text)
  {
    if lastLogLines == [] || LogBlock(base, lastLogLines) == [] then base
    else base + OPENING + LogBlock(base, lastLogLines) + CLOSING
  }

  /** For every message text and every log: the assembled text is within the limit unless the text alone was
      not; the block carries no markup; and it is missing only for an empty log or for want of room. */
  lemma MessageFits(base: Text, lastLogLines: seq<Text>)
    ensures var block := LogBlock(base, lastLogLines);
            && Inert(block)
            && (block != [] ==> |base + OPENING + block + CLOSING| <= SLACK_MAX_TEXT_BYTES)
            && (block == [] ==> Join(lastLogLines, NEWLINE) == [] || |base| + 27 + 29 >= SLACK_MAX_TEXT_BYTES)
  {
    FixedTexts();
    var log := Join(lastLogLines, NEWLINE);
    EscapeIsInert(log);
    BlockFits(MARKER, Escape(log), LogBudget(base));
    BlockIsInert(MARKER, Escape(log), LogBudget(base));
    if Escape(log) == [] {
      UnescapeEscape(log);
    }
  }

  lemma {:induction false} JoinIsValid(lines: seq<Text>)
    requires forall i :: 0 <= i < |lines| ==> Valid(lines[i])
    ensures Valid(Join(lines, NEWLINE))
  {
    if |lines| > 1 {
      JoinIsValid(lines[1..]);
      AsciiIsValid([NEWLINE]);
      ValidConcat(lines[0], [NEWLINE]);
      ValidConcat(lines[0] + [NEWLINE], Join(lines[1..], NEWLINE));
    }
  }

  lemma ValidConcat4(a: Text, b: Text, c: Text, d: Text)
    requires Valid(a) && Valid(b) && Valid(c) && Valid(d)
    ensures Valid(a + b + c + d)
  {
    ValidConcat(a, b);
    ValidConcat(a + b, c);
    ValidConcat(a + b + c, d);
  }

  /** Valid log lines in a valid message give a valid message. */
  lemma MessageIsValid(base: Text, lastLogLines: seq<Text>)
    requires Valid(base) && forall i :: 0 <= i < |lastLogLines| ==> Valid(lastLogLines[i])
    ensures Valid(base + OPENING + LogBlock(base, lastLogLines) + CLOSING)
  {
    JoinIsValid(lastLogLines);
    FixedTexts();
    EscapeIsValid(Join(lastLogLines, NEWLINE));
    BlockIsValid(MARKER, Escape(Join(lastLogLines, NEWLINE)), LogBudget(base));
    ValidConcat4(base, OPENING, LogBlock(base, lastLogLines), CLOSING);
  }

  /** The parts put together: the base text comes first and unchanged, the limit holds unless the base text
      alone is over it, and what follows the base text carries no markup. */
  lemma MessageShape(base: Text, lastLogLines: seq<Text>)
    ensures var text := Message(base, lastLogLines);
            && base <= text
            && |text| <= (if |base| > SLACK_MAX_TEXT_BYTES then |base| else SLACK_MAX_TEXT_BYTES)
            && Inert(text[|base|..])
  {
    MessageFits(base, lastLogLines);
    FixedTexts();
    FencedIsInert(base, OPENING, LogBlock(base, lastLogLines), CLOSING);
    assert base[|base|..] == [];
  }

  lemma FencedIsInert(base: Text, opening: Text, block: Text, closing: Text)
    requires Inert(opening) && Inert(block) && Inert(closing)
    ensures Inert((base + opening + block + closing)[|base|..])
  {
    InertConcat(opening, block);
    InertConcat(opening + block, closing);
    assert (base + opening + block + closing)[|base|..] == opening + block + closing;
  }

  /** The log part of Send, appended to the message built so far. */
  method AppendLogs(base: Text, lastLogLines: seq<Text>) returns (text: Text)
    ensures text == Message(base, lastLogLines) && base <= text
    ensures |text| <= (if |base| > SLACK_MAX_TEXT_BYTES then |base| else SLACK_MAX_TEXT_BYTES)
    ensures Inert(text[|base|..])
    ensures Valid(base) && (forall i :: 0 <= i < |lastLogLines| ==> Valid(lastLogLines[i])) ==> Valid(text)
  {
    text := base;
    if |lastLogLines| > 0 {
      var budget := SLACK_MAX_TEXT_BYTES - |text| - (|OPENING| + |CLOSING|);
      var block := SlackLogBlock(MARKER, Escape(Join(lastLogLines, NEWLINE)), budget);
      if block != [] {
        text := text + OPENING + block + CLOSING;
      }
    }
    MessageShape(base, lastLogLines);
    if Valid(base) && forall i :: 0 <= i < |lastLogLines| ==> Valid(lastLogLines[i]) {
      MessageIsValid(base, lastLogLines);
    }
  }

  // ---------- The fence around the block

  const TICK: byte := 96

  /** Three backticks begin at j. */
  predicate FenceAt(s: Text, j: nat) {
    j + 3 <= |s| && s[j] == TICK && s[j + 1] == TICK && s[j + 2] == TICK
  }

  /** Past the opening fence, the one that Send appends is the only other one exactly when the block holds none:
      backticks at the edges of the block never join up with the fences around it. */
  lemma OnlyClosingFenceIff(block: Text)
    ensures FenceAt(block + CLOSING, |block| + 1)
    ensures (forall j: nat :: FenceAt(block + CLOSING, j) ==> j == |block| + 1) <==>
            (forall j: nat :: !FenceAt(block, j))
  {
    FixedTexts();
    var text := block + CLOSING;
    assert text[|block|] == NEWLINE;
    forall j: nat ensures FenceAt(text, j) <==> FenceAt(block, j) || j == |block| + 1 {}
  }
}
