/** Byte strings, as Go strings are: indexing and length count bytes, not characters. */
module Bytes {

  newtype byte = x: int | 0 <= x < 256

  type Text = seq<byte>

  datatype Option<+T> = None | Some(value: T)

  datatype Result<+T, +E> = Ok(value: T) | Err(error: E)

  const NEWLINE: byte := 10
  const SPACE: byte := 32
  const DASH: byte := 45
  const DOT: byte := 46
  const COLON: byte := 58

  function Last<T>(s: seq<T>): (x: T)
    requires s != []
  {
    s[|s| - 1]
  }

  function DropLast<T>(s: seq<T>): (r: seq<T>)
    requires s != []
  {
    s[..|s| - 1]
  }

  /** The last n elements of s, or all of s when it is shorter. */
  function LastN<T>(s: seq<T>, n: nat): (r: seq<T>)
  {
    if |s| <= n then s else s[|s| - n..]
  }

  /** s ends with t. */
  predicate IsSuffix<T(==)>(t: seq<T>, s: seq<T>) {
    |t| <= |s| && s[|s| - |t|..] == t
  }

  /** Cutting a text and then its rest is cutting it further on. */
  lemma CutTwice(s: Text, n: nat, i: nat)
    requires n <= i <= |s|
    ensures s[..n] + s[n..][..i - n] == s[..i]
    ensures s[n..][i - n..] == s[i..]
  {
    assert s[n..][..i - n] == s[n..i];
    assert s[..n] + s[n..i] == s[..i];
  }

  lemma SliceBefore(s: Text, i: nat, j: nat)
    requires i <= j <= |s|
    ensures s[i..j] + s[j..] == s[i..]
  {
  }

  function Count(s: Text, b: byte): (n: nat)
    ensures n <= |s|
  {
    if s == [] then 0 else (if s[0] == b then 1 else 0) + Count(s[1..], b)
  }

  lemma {:induction false} CountConcat(a: Text, b: Text, c: byte)
    ensures Count(a + b, c) == Count(a, c) + Count(b, c)
  {
    if a == [] {
      assert a + b == b;
    } else {
      assert (a + b)[1..] == a[1..] + b;
      CountConcat(a[1..], b, c);
    }
  }

  function Concat(parts: seq<Text>): (s: Text)
  {
    if parts == [] then [] else parts[0] + Concat(parts[1..])
  }

  lemma {:induction false} ConcatAppend(a: seq<Text>, b: seq<Text>)
    ensures Concat(a + b) == Concat(a) + Concat(b)
  {
    if a == [] {
      assert a + b == b;
    } else {
      assert (a + b)[1..] == a[1..] + b;
      ConcatAppend(a[1..], b);
    }
  }

  lemma ConcatSnoc(a: seq<Text>, t: Text)
    ensures Concat(a + [t]) == Concat(a) + t
  {
    ConcatAppend(a, [t]);
    assert [t][1..] == [];
    assert Concat([t]) == t + Concat([t][1..]);
  }

  /** The total length of a list of strings. */
  function TotalLen(lines: seq<Text>): (n: nat)
  {
    if lines == [] then 0 else |lines[0]| + TotalLen(lines[1..])
  }

  lemma {:induction false} TotalLenConcat(a: seq<Text>, b: seq<Text>)
    ensures TotalLen(a + b) == TotalLen(a) + TotalLen(b)
  {
    if a == [] {
      assert a + b == b;
    } else {
      assert (a + b)[1..] == a[1..] + b;
      TotalLenConcat(a[1..], b);
    }
  }

  /** strings.Split with a one-byte separator: one more piece than there are separators. */
  function Split(s: Text, sep: byte): (parts: seq<Text>)
    ensures |parts| == Count(s, sep) + 1
  {
    if s == [] then [[]]
    else
      var rest := Split(s[1..], sep);
      if s[0] == sep then [[]] + rest else [[s[0]] + rest[0]] + rest[1..]
  }

  /** No piece holds the separator. */
  lemma {:induction false} PiecesAreFree(s: Text, sep: byte)
    ensures forall p <- Split(s, sep) :: sep !in p
  {
    if s != [] {
      PiecesAreFree(s[1..], sep);
      var rest := Split(s[1..], sep);
      assert rest[0] in rest;
    }
  }

  /** strings.Join with a one-byte separator. */
  function Join(parts: seq<Text>, sep: byte): (s: Text)
  {
    if parts == [] then []
    else if |parts| == 1 then parts[0]
    else parts[0] + [sep] + Join(parts[1..], sep)
  }

  lemma {:induction false} JoinSplit(s: Text, sep: byte)
    ensures Join(Split(s, sep), sep) == s
  {
    if s != [] {
      JoinSplit(s[1..], sep);
      var rest := Split(s[1..], sep);
      if s[0] == sep {
        assert ([[]] + rest)[1..] == rest;
      } else {
        assert ([[s[0]] + rest[0]] + rest[1..])[1..] == rest[1..];
        assert |rest| > 1 ==> Join(rest, sep) == rest[0] + [sep] + Join(rest[1..], sep);
      }
    }
  }

  /** Splitting a text without the separator changes nothing; a separator-free head is the first piece. */
  lemma {:induction false} SplitHead(head: Text, tail: Text, sep: byte)
    requires sep !in head
    ensures Split(head, sep) == [head]
    ensures Split(head + [sep] + tail, sep) == [head] + Split(tail, sep)
  {
    var s := head + [sep] + tail;
    if head == [] {
      assert s[1..] == tail;
    } else {
      assert s[1..] == head[1..] + [sep] + tail;
      SplitHead(head[1..], tail, sep);
      assert [head[0]] + head[1..] == head;
      assert ([head[1..]] + Split(tail, sep))[1..] == Split(tail, sep);
    }
  }

  /** Split undoes Join on any non-empty list of separator-free pieces, so the pieces are unique. */
  lemma {:induction false} SplitJoin(parts: seq<Text>, sep: byte)
    requires parts != [] && forall p <- parts :: sep !in p
    ensures Split(Join(parts, sep), sep) == parts
  {
    if |parts| == 1 {
      SplitHead(parts[0], [], sep);
      assert parts == [parts[0]];
    } else {
      SplitJoin(parts[1..], sep);
      SplitHead(parts[0], Join(parts[1..], sep), sep);
      assert parts == [parts[0]] + parts[1..];
    }
  }

  /** Two lists of pieces laid end to end, the last piece of one running on into the first of the other. */
  function Glue(A: seq<Text>, B: seq<Text>): (r: seq<Text>)
    requires A != [] && B != []
    ensures |r| == |A| + |B| - 1
  {
    DropLast(A) + [Last(A) + B[0]] + B[1..]
  }

  lemma GlueCons(x: Text, A: seq<Text>, B: seq<Text>)
    requires A != [] && B != []
    ensures Glue([x] + A, B) == [x] + Glue(A, B)
  {
    assert DropLast([x] + A) == [x] + DropLast(A);
  }

  lemma GlueHead(c: byte, A: seq<Text>, B: seq<Text>)
    requires A != [] && B != []
    ensures Glue([[c] + A[0]] + A[1..], B) == [[c] + Glue(A, B)[0]] + Glue(A, B)[1..]
  {
    if |A| == 1 {
      assert [c] + (A[0] + B[0]) == [c] + A[0] + B[0];
    } else {
      assert A == [A[0]] + A[1..];
      GlueCons(A[0], A[1..], B);
      GlueCons([c] + A[0], A[1..], B);
    }
  }

  lemma GlueTrim(A: seq<Text>, B: seq<Text>)
    requires A != [] && |B| > 1
    ensures Last(Glue(A, B)) == Last(B) && DropLast(Glue(A, B)) == Glue(A, DropLast(B))
  {
  }

  /** Gluing in front changes none of the last n pieces, as long as the glued one is not among them. */
  lemma GlueLastN(A: seq<Text>, B: seq<Text>, n: nat)
    requires A != [] && B != []
    ensures n < |B| ==> LastN(Glue(A, B), n) == LastN(B[1..], n)
    ensures |B| > 1 ==> IsSuffix(LastN(B[1..], n), LastN(Glue(A, B), n))
  {
    var G := Glue(A, B);
    assert G[|A|..] == B[1..];
    if n < |B| {
      assert LastN(G, n) == G[|A|..][|B| - 1 - n..];
    } else {
      assert LastN(G, n) == G[|G| - |LastN(G, n)|..];
    }
  }

  /** Cutting a text in two cuts exactly one of its pieces in two. */
  lemma {:induction false} SplitConcat(a: Text, b: Text, sep: byte)
    ensures Split(a + b, sep) == Glue(Split(a, sep), Split(b, sep))
  {
    if a == [] {
      assert a + b == b;
      assert [] + Split(b, sep)[0] == Split(b, sep)[0];
    } else {
      assert (a + b)[1..] == a[1..] + b;
      SplitConcat(a[1..], b, sep);
      var A, B := Split(a[1..], sep), Split(b, sep);
      if a[0] == sep {
        assert Split(a, sep) == [[]] + A && Split(a + b, sep) == [[]] + Glue(A, B);
        GlueCons([], A, B);
      } else {
        assert Split(a, sep) == [[a[0]] + A[0]] + A[1..];
        GlueHead(a[0], A, B);
      }
    }
  }

  predicate HasPrefix(s: Text, p: Text) {
    p <= s
  }

  function TrimSuffix(s: Text, t: Text): (r: Text)
  {
    if IsSuffix(t, s) then s[..|s| - |t|] else s
  }

  predicate OccursAt(s: Text, sep: Text, i: int) {
    0 <= i <= |s| - |sep| && s[i..i + |sep|] == sep
  }

  /** The first offset at or after `from` where `sep` occurs in s, or -1. */
  function IndexFrom(s: Text, sep: Text, from: nat): (i: int)
    requires from <= |s|
    ensures i == -1 || (from <= i && OccursAt(s, sep, i))
    decreases |s| - from
  {
    if OccursAt(s, sep, from) then from
    else if from == |s| then -1
    else IndexFrom(s, sep, from + 1)
  }

  lemma {:induction false} IndexIsFirst(s: Text, sep: Text, from: nat)
    requires from <= |s|
    ensures var i := IndexFrom(s, sep, from);
            forall j :: from <= j && (i < 0 || j < i) ==> !OccursAt(s, sep, j)
    decreases |s| - from
  {
    if !OccursAt(s, sep, from) && from < |s| {
      IndexIsFirst(s, sep, from + 1);
    }
  }

  datatype CutResult = CutResult(before: Text, after: Text, found: bool)

  /** strings.Cut: the text around the first occurrence of sep. */
  function Cut(s: Text, sep: Text): (r: CutResult)
  {
    var i := IndexFrom(s, sep, 0);
    if i < 0 then CutResult(s, [], false) else CutResult(s[..i], s[i + |sep|..], true)
  }

  /** The pieces spell the text again. */
  lemma CutSpells(s: Text, sep: Text)
    ensures var r := Cut(s, sep);
            if r.found then s == r.before + sep + r.after else r.before == s && r.after == []
  {
    var i := IndexFrom(s, sep, 0);
    if i >= 0 {
      assert s == s[..i] + s[i..i + |sep|] + s[i + |sep|..];
    }
  }

  /** Cutting where sep first occurs recovers what is around it. */
  lemma CutFirst(head: Text, sep: Text, tail: Text)
    requires forall j :: 0 <= j < |head| ==> !OccursAt(head + sep + tail, sep, j)
    ensures Cut(head + sep + tail, sep) == CutResult(head, tail, true)
  {
    var s := head + sep + tail;
    assert s[|head|..|head| + |sep|] == sep;
    assert OccursAt(s, sep, |head|);
    IndexIsFirst(s, sep, 0);
    assert s[..|head|] == head && s[|head| + |sep|..] == tail;
  }

  /** Cutting at a one-byte separator that the head does not contain. */
  lemma CutAt(head: Text, sep: byte, tail: Text)
    requires sep !in head
    ensures Cut(head + [sep] + tail, [sep]) == CutResult(head, tail, true)
    ensures Cut(head, [sep]) == CutResult(head, [], false)
  {
    var s := head + [sep] + tail;
    forall j | 0 <= j < |head| ensures !OccursAt(s, [sep], j) && !OccursAt(head, [sep], j) {
      assert s[j..j + 1] == [head[j]] && head[j..j + 1] == [head[j]];
    }
    CutFirst(head, [sep], tail);
    assert !OccursAt(head, [sep], |head|);
    IndexIsFirst(head, [sep], 0);
  }
}
