/** The generated object name prefix and the label values of a report. */
module Names {
  import opened Bytes

  /** A code point, as ranging over a Go string yields them. */
  type Rune = nat

  const UNDERSCORE: byte := 95
  const MAX_LABEL_VALUE_LENGTH := 63
  const GENERATED_NAME_BASE_LIMIT := 63 - 5

  // ---------- Character classes and trimming

  predicate Lower(b: int) {
    97 <= b <= 122
  }

  predicate LowerAlnum(b: int) {
    Lower(b) || 48 <= b <= 57
  }

  predicate Alnum(b: int) {
    LowerAlnum(b) || 65 <= b <= 90
  }

  /** The first offset at or after `from` whose byte is not in the cutset, or the length of s. */
  function Lead(s: Text, cutset: set<byte>, from: nat): (k: nat)
    requires from <= |s|
    ensures from <= k <= |s| && (k < |s| ==> s[k] !in cutset)
    ensures forall j :: from <= j < k ==> s[j] in cutset
    decreases |s| - from
  {
    if from < |s| && s[from] in cutset then Lead(s, cutset, from + 1) else from
  }

  /** The last offset at or before `to` that does not follow a byte of the cutset, or 0. */
  function Trail(s: Text, cutset: set<byte>, to: nat): (k: nat)
    requires to <= |s|
    ensures k <= to && (k > 0 ==> s[k - 1] !in cutset)
    ensures forall j :: k <= j < to ==> s[j] in cutset
  {
    if to > 0 && s[to - 1] in cutset then Trail(s, cutset, to - 1) else to
  }

  /** strings.TrimRight. */
  function TrimRight(s: Text, cutset: set<byte>): (r: Text)
  {
    s[..Trail(s, cutset, |s|)]
  }

  /** strings.Trim. */
  function Trim(s: Text, cutset: set<byte>): (r: Text)
  {
    TrimRight(s[Lead(s, cutset, 0)..], cutset)
  }

  /** Trimming keeps one stretch of the text, begins and ends it outside the cutset, and drops only what is in it. */
  lemma TrimRange(s: Text, cutset: set<byte>) returns (a: nat, b: nat)
    ensures a <= b <= |s| && Trim(s, cutset) == s[a..b]
    ensures a < b ==> s[a] !in cutset && s[b - 1] !in cutset
    ensures forall i :: 0 <= i < a || b <= i < |s| ==> s[i] in cutset
  {
    a := Lead(s, cutset, 0);
    var l := s[a..];
    var k := Trail(l, cutset, |l|);
    b := a + k;
    assert s[a..b] == l[..k];
    forall i | b <= i < |s| ensures s[i] in cutset {
      assert l[i - a] == s[i];
    }
    if a < b {
      assert l[k - 1] == s[b - 1];
    }
  }

  lemma TrimEnds(s: Text, cutset: set<byte>)
    ensures var r := Trim(s, cutset);
            && |r| <= |s| && (forall b <- r :: b in s)
            && (r != [] ==> r[0] !in cutset && Last(r) !in cutset)
  {
    var a, b := TrimRange(s, cutset);
    forall x | x in s[a..b] ensures x in s {
      var i :| 0 <= i < b - a && s[a..b][i] == x;
      assert s[a + i] == x;
    }
  }

  /** Text that begins and ends outside the cutset is left alone. */
  lemma TrimKeeps(s: Text, cutset: set<byte>)
    requires s != [] && s[0] !in cutset && Last(s) !in cutset
    ensures Trim(s, cutset) == s
  {
    assert s[0..] == s;
  }

  // ---------- labelValue

  const LABEL_TRIM: set<byte> := {DASH, UNDERSCORE, DOT}

  predicate LabelChar(r: int) {
    Alnum(r) || r == 45 || r == 95 || r == 46
  }

  function LabelByte(r: Rune): (b: byte)
  {
    if LabelChar(r) then r as byte else DASH
  }

  function LabelBytes(s: seq<Rune>): (r: Text)
    ensures |r| == |s|
  {
    seq(|s|, i requires 0 <= i < |s| => LabelByte(s[i]))
  }

  function Capped(s: Text): (r: Text)
  {
    if |s| > MAX_LABEL_VALUE_LENGTH then s[..MAX_LABEL_VALUE_LENGTH] else s
  }

  function LabelValueOf(s: seq<Rune>): (r: Text)
  {
    Trim(Capped(LabelBytes(s)), LABEL_TRIM)
  }

  method LabelValue(s: seq<Rune>) returns (out: Text)
    ensures out == LabelValueOf(s)
  {
    out := [];
    for i := 0 to |s|
      invariant out == LabelBytes(s)[..i]
    {
      var r := s[i];
      if Alnum(r) || r == 45 || r == 95 || r == 46 {
        out := out + [r as byte];
      } else {
        out := out + [DASH];
      }
    }
    assert LabelBytes(s)[..|s|] == LabelBytes(s);
    if |out| > MAX_LABEL_VALUE_LENGTH {
      out := out[..MAX_LABEL_VALUE_LENGTH];
    }
    out := Trim(out, LABEL_TRIM);
  }

  /** A label value the API server accepts. */
  predicate ValidLabelValue(v: Text) {
    && |v| <= 63
    && (forall i :: 0 <= i < |v| ==> LabelChar(v[i] as int))
    && (v != [] ==> Alnum(v[0] as int) && Alnum(Last(v) as int))
  }

  function AsRunes(v: Text): (s: seq<Rune>)
    ensures |s| == |v|
  {
    seq(|v|, i requires 0 <= i < |v| => v[i] as int)
  }

  /** Whatever the string, the label value is one the API server accepts. */
  lemma LabelValueIsValid(s: seq<Rune>)
    ensures ValidLabelValue(LabelValueOf(s))
  {
    var capped := Capped(LabelBytes(s));
    var v := LabelValueOf(s);
    TrimEnds(capped, LABEL_TRIM);
    forall i | 0 <= i < |v| ensures LabelChar(v[i] as int) {
      assert v[i] in capped;
      var j :| 0 <= j < |capped| && capped[j] == v[i];
      assert capped[j] == LabelByte(s[j]);
    }
  }

  /** A value that is already acceptable is kept, so coercing twice is coercing once. */
  lemma LabelValueKeepsValid(v: Text)
    requires ValidLabelValue(v)
    ensures LabelValueOf(AsRunes(v)) == v
  {
    assert LabelBytes(AsRunes(v)) == v;
    if v != [] {
      TrimKeeps(v, LABEL_TRIM);
    }
  }

  lemma LabelValueIsIdempotent(s: seq<Rune>)
    ensures LabelValueOf(AsRunes(LabelValueOf(s))) == LabelValueOf(s)
  {
    LabelValueIsValid(s);
    LabelValueKeepsValid(LabelValueOf(s));
  }

  // ---------- sanitizeName and reportNamePrefix

  const NAME_TRIM: set<byte> := {DASH, DOT}

  predicate NameChar(b: int) {
    LowerAlnum(b) || b == 45 || b == 46
  }

  /** strings.ToLower on one code point, as far as it matters: besides the ASCII letters, only the dotted capital I
      (U+0130) and the Kelvin sign (U+212A) have an ASCII letter as their lower case, and everything else that
      is not ASCII becomes a dash whatever its case. */
  function ToLower(r: Rune): (l: Rune)
  {
    if 65 <= r <= 90 then r + 32
    else if r == 0x130 then 105
    else if r == 0x212A then 107
    else r
  }

  /** A code point that sanitizeName turns into a letter or digit. */
  predicate NameAlnum(r: Rune) {
    Alnum(r) || r == 0x130 || r == 0x212A
  }

  function NameByte(r: Rune): (b: byte)
  {
    if NameChar(ToLower(r)) then ToLower(r) as byte else DASH
  }

  function NameBytes(s: seq<Rune>): (r: Text)
    ensures |r| == |s|
  {
    seq(|s|, i requires 0 <= i < |s| => NameByte(s[i]))
  }

  function Sanitized(s: seq<Rune>): (r: Text)
  {
    Trim(NameBytes(s), NAME_TRIM)
  }

  method SanitizeName(s: seq<Rune>) returns (out: Text)
    ensures out == Sanitized(s)
  {
    out := [];
    for i := 0 to |s|
      invariant out == NameBytes(s)[..i]
    {
      var r := ToLower(s[i]);
      if LowerAlnum(r) || r == 45 || r == 46 {
        out := out + [r as byte];
      } else {
        out := out + [DASH];
      }
    }
    assert NameBytes(s)[..|s|] == NameBytes(s);
    out := Trim(out, NAME_TRIM);
  }

  /** "podcrashreport" */
  const FALLBACK: Text := [112, 111, 100, 99, 114, 97, 115, 104, 114, 101, 112, 111, 114, 116]

  function PrefixOf(base: Text): (r: Text)
  {
    var limit := GENERATED_NAME_BASE_LIMIT - 1;
    TrimRight(if |base| > limit then base[..limit] else base, NAME_TRIM) + [DASH]
  }

  function ReportNamePrefix(podName: seq<Rune>, containerName: seq<Rune>): (r: Text)
  {
    var base := Sanitized(podName + [45] + containerName);
    PrefixOf(if base == [] then FALLBACK else base)
  }

  // ---------- DNS names

  /** A DNS-1123 label, length aside. */
  predicate IsLabel(s: Text) {
    && s != [] && LowerAlnum(s[0] as int) && LowerAlnum(Last(s) as int)
    && (forall i :: 0 <= i < |s| ==> LowerAlnum(s[i] as int) || s[i] == DASH)
  }

  predicate AllLabels(parts: seq<Text>) {
    forall i :: 0 <= i < |parts| ==> IsLabel(parts[i])
  }

  /** A DNS-1123 subdomain, length aside: labels separated by dots. */
  predicate IsSubdomain(s: Text) {
    AllLabels(Split(s, DOT))
  }

  /** The byte may stand where it does: one that names may hold, a dot only between two letters or digits. */
  predicate WellPlaced(s: Text, i: nat) {
    && i < |s| && NameChar(s[i] as int)
    && (s[i] == DOT ==> 0 < i < |s| - 1 && LowerAlnum(s[i - 1] as int) && LowerAlnum(s[i + 1] as int))
  }

  /** The same, said of single characters and their neighbours. */
  predicate WellSpelled(s: Text) {
    && s != [] && LowerAlnum(s[0] as int) && LowerAlnum(Last(s) as int)
    && (forall i: nat :: i < |s| ==> WellPlaced(s, i))
  }

  lemma WellSpelledSplit(head: Text, tail: Text)
    requires DOT !in head && WellSpelled(head + [DOT] + tail)
    ensures IsLabel(head) && WellSpelled(tail)
  {
    var s := head + [DOT] + tail;
    var n := |head|;
    assert s[n] == DOT && WellPlaced(s, n);
    forall i | 0 <= i < n ensures LowerAlnum(head[i] as int) || head[i] == DASH {
      assert s[i] == head[i] && WellPlaced(s, i);
    }
    forall i: nat | i < |tail| ensures WellPlaced(tail, i) {
      assert tail[i] == s[n + 1 + i] && WellPlaced(s, n + 1 + i);
      assert Last(tail) == Last(s);
    }
  }

  lemma WellSpelledJoin(head: Text, tail: Text)
    requires IsLabel(head) && WellSpelled(tail)
    ensures WellSpelled(head + [DOT] + tail)
  {
    var s := head + [DOT] + tail;
    var n := |head|;
    forall i: nat | i < |s| ensures WellPlaced(s, i) {
      if i > n {
        assert WellPlaced(tail, i - n - 1);
      }
    }
  }

  lemma {:induction false} FirstDot(s: Text) returns (i: nat)
    requires DOT in s
    ensures i < |s| && s[i] == DOT && DOT !in s[..i]
  {
    if s[0] == DOT {
      i := 0;
    } else {
      var j := FirstDot(s[1..]);
      i := j + 1;
      assert s[..i] == [s[0]] + s[1..][..j];
    }
  }

  lemma AllLabelsCons(head: Text, rest: seq<Text>)
    ensures AllLabels([head] + rest) <==> IsLabel(head) && AllLabels(rest)
  {
    var parts := [head] + rest;
    assert parts[0] == head && parts[1..] == rest;
    assert forall i :: 0 <= i < |rest| ==> parts[i + 1] == rest[i];
  }

  lemma DotlessLabel(s: Text)
    requires DOT !in s
    ensures IsLabel(s) <==> WellSpelled(s)
  {
    forall i: nat | i < |s| ensures WellPlaced(s, i) <==> LowerAlnum(s[i] as int) || s[i] == DASH {
      assert s[i] in s;
    }
  }

  lemma {:induction false} SubdomainIffWellSpelled(s: Text)
    ensures IsSubdomain(s) <==> WellSpelled(s)
    decreases |s|
  {
    if DOT !in s {
      SplitHead(s, [], DOT);
      AllLabelsCons(s, []);
      assert [s] + [] == [s];
      DotlessLabel(s);
    } else {
      var i := FirstDot(s);
      var head, tail := s[..i], s[i + 1..];
      assert s == head + [DOT] + tail;
      SplitHead(head, tail, DOT);
      SubdomainIffWellSpelled(tail);
      AllLabelsCons(head, Split(tail, DOT));
      if WellSpelled(s) {
        WellSpelledSplit(head, tail);
      } else if IsLabel(head) && WellSpelled(tail) {
        WellSpelledJoin(head, tail);
      }
    }
  }

  // ---------- The generated name is valid

  /** A prefix of a well-spelled name that ends in a letter or digit is well-spelled. */
  lemma WellSpelledPrefix(s: Text, n: nat)
    requires WellSpelled(s) && 0 < n <= |s| && LowerAlnum(s[n - 1] as int)
    ensures WellSpelled(s[..n])
  {
    forall i: nat | i < n ensures WellPlaced(s[..n], i) {
      assert WellPlaced(s, i);
    }
  }

  /** A dash and a label-like ending keep a name well-spelled. */
  lemma WellSpelledDash(s: Text, t: Text)
    requires WellSpelled(s) && IsLabel(t)
    ensures WellSpelled(s + [DASH] + t)
  {
    var u := s + [DASH] + t;
    forall i: nat | i < |u| ensures WellPlaced(u, i) {
      if i < |s| {
        assert WellPlaced(s, i);
      } else if i > |s| {
        assert u[i] == t[i - |s| - 1];
      }
    }
  }

  /** Sanitizing a name that is already well-spelled changes nothing. */
  lemma SanitizedKeeps(s: Text)
    requires WellSpelled(s)
    ensures Sanitized(AsRunes(s)) == s
  {
    forall i: nat | i < |s| ensures NameBytes(AsRunes(s))[i] == s[i] {
      assert WellPlaced(s, i);
    }
    assert NameBytes(AsRunes(s)) == s;
    TrimKeeps(s, NAME_TRIM);
  }

  lemma PrefixIsWellSpelled(base: Text)
    requires WellSpelled(base)
    ensures |PrefixOf(base)| <= GENERATED_NAME_BASE_LIMIT
    ensures exists n :: 0 < n <= |base| && LowerAlnum(base[n - 1] as int) && PrefixOf(base) == base[..n] + [DASH]
  {
    var limit := GENERATED_NAME_BASE_LIMIT - 1;
    var cut := if |base| > limit then base[..limit] else base;
    var t := TrimRight(cut, NAME_TRIM);
    assert cut[0] == base[0] && cut[0] !in NAME_TRIM;
    assert |t| > 0;
    assert Last(t) == base[|t| - 1] && WellPlaced(base, |t| - 1);
    assert PrefixOf(base) == base[..|t|] + [DASH];
  }

  /** For every pod name (DNS subdomain) and container name (DNS label), the prefix plus the five characters the
      API server appends is a DNS subdomain of at most 63 bytes, and the server does not shorten the prefix. */
  lemma GeneratedNameIsValid(podName: Text, containerName: Text, suffix: Text)
    requires IsSubdomain(podName) && IsLabel(containerName)
    requires |suffix| == 5 && forall i :: 0 <= i < 5 ==> LowerAlnum(suffix[i] as int)
    ensures var prefix := ReportNamePrefix(AsRunes(podName), AsRunes(containerName));
            |prefix| <= 58 && |prefix + suffix| <= 63 && IsSubdomain(prefix + suffix)
  {
    var base := podName + [DASH] + containerName;
    SubdomainIffWellSpelled(podName);
    WellSpelledDash(podName, containerName);
    assert AsRunes(base) == AsRunes(podName) + [45] + AsRunes(containerName);
    SanitizedKeeps(base);
    PrefixIsWellSpelled(base);
    var n :| 0 < n <= |base| && LowerAlnum(base[n - 1] as int) && PrefixOf(base) == base[..n] + [DASH];
    WellSpelledPrefix(base, n);
    WellSpelledDash(base[..n], suffix);
    SubdomainIffWellSpelled(base[..n] + [DASH] + suffix);
  }

  // ---------- What sanitizeName does not promise

  predicate Flanked(s: seq<Rune>, i: nat) {
    0 < i < |s| - 1 && NameAlnum(s[i - 1]) && NameAlnum(s[i + 1])
  }

  /** A dot between letters or digits, however far away, has one on each side; letters are those of any case. */
  predicate CleanDots(s: seq<Rune>) {
    forall i: nat, j: nat, k: nat {:trigger Flanked(s, i), NameAlnum(s[j]), NameAlnum(s[k])} ::
      j < i < k < |s| && s[i] == 46 && NameAlnum(s[j]) && NameAlnum(s[k]) ==> Flanked(s, i)
  }

  /** b is what r becomes, as far as names are concerned. */
  predicate Renders(b: byte, r: Rune) {
    && NameChar(b as int)
    && (LowerAlnum(b as int) <==> NameAlnum(r))
    && (b == DOT <==> r == 46)
  }

  lemma NameByteRenders(r: Rune)
    ensures Renders(NameByte(r), r)
    ensures NameByte(r) in NAME_TRIM <==> !NameAlnum(r)
  {
  }

  /** r spells s[a..b], and s has no letter or digit outside. */
  ghost predicate Spells(s: seq<Rune>, r: Text, a: nat, b: nat) {
    && a < b <= |s| && |r| == b - a && NameAlnum(s[a]) && NameAlnum(s[b - 1])
    && (forall i :: 0 <= i < a || b <= i < |s| ==> !NameAlnum(s[i]))
    && (forall i :: 0 <= i < |r| ==> Renders(r[i], s[a + i]))
  }

  lemma NameBytesRender(s: seq<Rune>)
    ensures forall i :: 0 <= i < |s| ==> Renders(NameBytes(s)[i], s[i])
    ensures forall i :: 0 <= i < |s| ==> (NameBytes(s)[i] in NAME_TRIM <==> !NameAlnum(s[i]))
  {
    forall i | 0 <= i < |s|
      ensures Renders(NameBytes(s)[i], s[i]) && (NameBytes(s)[i] in NAME_TRIM <==> !NameAlnum(s[i]))
    {
      NameByteRenders(s[i]);
    }
  }

  /** What survives trimming spells what lies between the first and the last letter or digit. */
  lemma SanitizedSpells(s: seq<Rune>) returns (a: nat, b: nat)
    requires Sanitized(s) != []
    ensures Spells(s, Sanitized(s), a, b)
  {
    NameBytesRender(s);
    a, b := TrimRange(NameBytes(s), NAME_TRIM);
    RangeSpells(s, NameBytes(s), a, b);
  }

  lemma RangeSpells(s: seq<Rune>, n: Text, a: nat, b: nat)
    requires |n| == |s| && a < b <= |n| && n[a] !in NAME_TRIM && n[b - 1] !in NAME_TRIM
    requires forall i :: 0 <= i < a || b <= i < |n| ==> n[i] in NAME_TRIM
    requires forall i :: 0 <= i < |s| ==> Renders(n[i], s[i])
    requires forall i :: 0 <= i < |s| ==> (n[i] in NAME_TRIM <==> !NameAlnum(s[i]))
    ensures Spells(s, n[a..b], a, b)
  {
    forall i | 0 <= i < b - a ensures Renders(n[a..b][i], s[a + i]) {
      assert n[a..b][i] == n[a + i];
    }
  }

  lemma CleanFromWellSpelled(s: seq<Rune>, r: Text, a: nat, b: nat)
    requires Spells(s, r, a, b) && WellSpelled(r)
    ensures CleanDots(s)
  {
    forall i: nat, j: nat, k: nat | j < i < k < |s| && s[i] == 46 && NameAlnum(s[j]) && NameAlnum(s[k])
      ensures Flanked(s, i)
    {
      var d := i - a;
      assert a <= j && k < b;
      assert Renders(r[d - 1], s[a + (d - 1)]) && Renders(r[d], s[a + d]) && Renders(r[d + 1], s[a + (d + 1)]);
      assert WellPlaced(r, d);
    }
  }

  lemma WellSpelledFromClean(s: seq<Rune>, r: Text, a: nat, b: nat)
    requires Spells(s, r, a, b) && CleanDots(s)
    ensures WellSpelled(r)
  {
    assert Renders(r[0], s[a + 0]) && Renders(r[|r| - 1], s[a + (|r| - 1)]);
    forall i: nat | i < |r| ensures WellPlaced(r, i) {
      assert Renders(r[i], s[a + i]);
      if r[i] == DOT {
        assert NameAlnum(s[a]) && NameAlnum(s[b - 1]);
        assert Flanked(s, a + i);
        assert Renders(r[i - 1], s[a + (i - 1)]) && Renders(r[i + 1], s[a + (i + 1)]);
      }
    }
  }

  /** Nothing is left exactly when there is no letter or digit. */
  lemma SanitizedIsEmptyIff(s: seq<Rune>)
    ensures Sanitized(s) == [] <==> forall i :: 0 <= i < |s| ==> !NameAlnum(s[i])
  {
    NameBytesRender(s);
    var a, b := TrimRange(NameBytes(s), NAME_TRIM);
  }

  lemma SpelledIffClean(s: seq<Rune>)
    requires Sanitized(s) != []
    ensures WellSpelled(Sanitized(s)) <==> CleanDots(s)
  {
    var a, b := SanitizedSpells(s);
    if WellSpelled(Sanitized(s)) {
      CleanFromWellSpelled(s, Sanitized(s), a, b);
    } else if CleanDots(s) {
      WellSpelledFromClean(s, Sanitized(s), a, b);
    }
  }

  /** Sanitizing an arbitrary string gives a valid name exactly when it holds a letter or digit and its dots are
      clean. */
  lemma SanitizedIsSubdomainIff(s: seq<Rune>)
    ensures IsSubdomain(Sanitized(s)) <==> CleanDots(s) && exists i :: 0 <= i < |s| && NameAlnum(s[i])
  {
    SanitizedIsEmptyIff(s);
    SubdomainIffWellSpelled(Sanitized(s));
    if Sanitized(s) != [] {
      SpelledIffClean(s);
    }
  }

  /** So "a..b" survives sanitizing as it is, and is no valid name. */
  lemma SanitizedCanBeInvalid()
    ensures Sanitized([97, 46, 46, 98]) == [97, 46, 46, 98] && !IsSubdomain([97, 46, 46, 98])
  {
    var s: seq<Rune> := [97, 46, 46, 98];
    assert NameBytes(s) == [97, 46, 46, 98];
    TrimKeeps([97, 46, 46, 98], NAME_TRIM);
    assert s[1] == 46 && NameAlnum(s[0]) && NameAlnum(s[3]) && !Flanked(s, 1);
    SanitizedIsSubdomainIff(s);
  }
}
