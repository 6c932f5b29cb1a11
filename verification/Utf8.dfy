/** UTF-8 as section 4 of RFC 3629 defines it, and where a valid text may be cut. */
module Utf8 {
  import opened Bytes

  /** utf8.RuneStart: false exactly on continuation bytes. */
  predicate RuneStart(b: byte) {
    !Tail(b)
  }

  predicate Tail(b: byte) {
    0x80 <= b < 0xC0
  }

  /** The length of the well-formed character at the start of s, or 0 when there is none. */
  function FirstRune(s: Text): (n: nat)
    ensures n <= |s| && n <= 4
    ensures n > 0 ==> RuneStart(s[0])
    ensures forall i :: 0 < i < n ==> Tail(s[i])
  {
    if s == [] then 0
    else if s[0] < 0x80 then 1
    else if |s| >= 2 && 0xC2 <= s[0] <= 0xDF && Tail(s[1]) then 2
    else if |s| >= 3 && ThreeByteLead(s[0], s[1]) && Tail(s[2]) then 3
    else if |s| >= 4 && FourByteLead(s[0], s[1]) && Tail(s[2]) && Tail(s[3]) then 4
    else 0
  }

  predicate ThreeByteLead(a: byte, b: byte) {
    || (a == 0xE0 && 0xA0 <= b <= 0xBF)
    || (0xE1 <= a <= 0xEC && Tail(b))
    || (a == 0xED && 0x80 <= b <= 0x9F)
    || (0xEE <= a <= 0xEF && Tail(b))
  }

  predicate FourByteLead(a: byte, b: byte) {
    || (a == 0xF0 && 0x90 <= b <= 0xBF)
    || (0xF1 <= a <= 0xF3 && Tail(b))
    || (a == 0xF4 && 0x80 <= b <= 0x8F)
  }

  predicate Valid(s: Text) {
    s == [] || (FirstRune(s) > 0 && Valid(s[FirstRune(s)..]))
  }

  lemma FirstRuneExtend(a: Text, b: Text)
    requires FirstRune(a) > 0
    ensures FirstRune(a + b) == FirstRune(a)
  {
  }

  lemma {:induction false} ValidConcat(a: Text, b: Text)
    requires Valid(a) && Valid(b)
    ensures Valid(a + b)
  {
    if a == [] {
      assert a + b == b;
    } else {
      var n := FirstRune(a);
      FirstRuneExtend(a, b);
      assert (a + b)[n..] == a[n..] + b;
      ValidConcat(a[n..], b);
    }
  }

  /** Removing a valid front from a valid text leaves a valid rest. */
  lemma {:induction false} ValidRest(a: Text, b: Text)
    requires Valid(a) && Valid(a + b)
    ensures Valid(b)
  {
    if a == [] {
      assert a + b == b;
    } else {
      var n := FirstRune(a);
      FirstRuneExtend(a, b);
      assert (a + b)[n..] == a[n..] + b;
      ValidRest(a[n..], b);
    }
  }

  /** The first character of a text is the first character of any prefix long enough to hold it. */
  lemma FirstRunePrefix(s: Text, i: nat)
    requires 0 < FirstRune(s) <= i <= |s|
    ensures FirstRune(s[..i]) == FirstRune(s)
  {
  }

  /** i is not inside a character of s, provided s is valid. */
  predicate Boundary(s: Text, i: nat)
    requires i <= |s|
  {
    i == |s| || RuneStart(s[i])
  }

  /** A single character is valid. */
  lemma OneRune(s: Text)
    requires FirstRune(s) > 0
    ensures Valid(s[..FirstRune(s)])
  {
    var n := FirstRune(s);
    FirstRunePrefix(s, n);
    assert s[..n][n..] == [];
  }

  /** No boundary falls inside the first character. */
  lemma BoundaryPastFirst(s: Text, i: nat)
    requires FirstRune(s) > 0 && 0 < i <= |s| && Boundary(s, i)
    ensures FirstRune(s) <= i
  {
  }

  lemma {:induction false} CutAtBoundary(s: Text, i: nat)
    requires Valid(s) && i <= |s| && Boundary(s, i)
    ensures Valid(s[..i]) && Valid(s[i..])
  {
    if i == 0 {
      assert s[0..] == s;
    } else {
      var n := FirstRune(s);
      BoundaryPastFirst(s, i);
      CutAtBoundary(s[n..], i - n);
      OneRune(s);
      CutFurther(s, n, i);
    }
  }

  lemma CutFurther(s: Text, n: nat, i: nat)
    requires n <= i <= |s| && Valid(s[..n]) && Valid(s[n..][..i - n]) && Valid(s[n..][i - n..])
    ensures Valid(s[..i]) && Valid(s[i..])
  {
    ValidConcat(s[..n], s[n..][..i - n]);
    CutTwice(s, n, i);
  }

  lemma ValidStartsCharacter(s: Text, i: nat)
    requires i < |s| && Valid(s[i..])
    ensures RuneStart(s[i])
  {
    assert s[i..][0] == s[i];
  }

  /** A valid text may be cut at i, leaving two valid texts, exactly when no character straddles i. */
  lemma CutIffBoundary(s: Text, i: nat)
    requires Valid(s) && i <= |s|
    ensures Boundary(s, i) <==> Valid(s[..i])
    ensures Boundary(s, i) <==> Valid(s[i..])
  {
    if Boundary(s, i) {
      CutAtBoundary(s, i);
    } else if Valid(s[i..]) {
      ValidStartsCharacter(s, i);
    } else if Valid(s[..i]) {
      assert s[..i] + s[i..] == s;
      ValidRest(s[..i], s[i..]);
    }
  }

  lemma {:induction false} AsciiIsValid(s: Text)
    requires forall i :: 0 <= i < |s| ==> s[i] < 0x80
    ensures Valid(s)
  {
    if s != [] {
      assert s[0] < 0x80;
      AsciiIsValid(s[1..]);
    }
  }

  /** What follows an ASCII byte of a valid text is valid. */
  lemma AfterAscii(s: Text, i: nat)
    requires Valid(s) && i < |s| && s[i] < 0x80
    ensures Valid(s[i + 1..])
  {
    CutAtBoundary(s, i);
    var t := s[i..];
    assert t[0] == s[i];
    assert FirstRune(t) == 1;
    assert t[1..] == s[i + 1..];
  }
}
