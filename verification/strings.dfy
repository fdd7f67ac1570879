/** The text helpers the program leans on: str.join, str.split() with no
    separator, and str.lower(), on ASCII text. */
module Strings {

  /** sep.join(parts); JoinLayout states where each part and separator
      stands in the result. */
  function Join(parts: seq<string>, sep: string): string
  {
    if |parts| == 0 then ""
    else if |parts| == 1 then parts[0]
    else parts[0] + sep + Join(parts[1..], sep)
  }

  /** Where part i of sep.join(parts) begins: each earlier part and the
      separator after it. */
  function PartStart(parts: seq<string>, sep: string, i: nat): nat
    requires i <= |parts|
  {
    if i == 0 then 0 else PartStart(parts, sep, i - 1) + |parts[i - 1]| + |sep|
  }

  /** A character str.split() treats as a separator (the ASCII ones). */
  predicate IsSpace(c: char) {
    c == ' ' || c == '\t' || c == '\n' || c == '\r'
    || c == 11 as char || c == 12 as char || (28 <= c as int <= 31)
  }

  /** A piece str.split() can return: non-empty, with no separator in it. */
  predicate IsWord(w: string) {
    w != [] && forall k :: 0 <= k < |w| ==> !IsSpace(w[k])
  }

  /** Number of separators at the front of s. */
  function LeadingSpaces(s: string): (n: nat)
    ensures n <= |s|
    ensures forall k :: 0 <= k < n ==> IsSpace(s[k])
    ensures n < |s| ==> !IsSpace(s[n])
  {
    if s == [] || !IsSpace(s[0]) then 0 else 1 + LeadingSpaces(s[1..])
  }

  /** Length of the run of non-separators at the front of s. */
  function WordLength(s: string): (n: nat)
    ensures n <= |s|
    ensures forall k :: 0 <= k < n ==> !IsSpace(s[k])
    ensures n < |s| ==> IsSpace(s[n])
  {
    if s == [] || IsSpace(s[0]) then 0 else 1 + WordLength(s[1..])
  }

  /** s.split(): the maximal runs of non-separators, in order. */
  function Split(s: string): (words: seq<string>)
    ensures forall i :: 0 <= i < |words| ==> IsWord(words[i])
    decreases |s|
  {
    var t := s[LeadingSpaces(s)..];
    if t == [] then []
    else
      var n := WordLength(t);
      [t[..n]] + Split(t[n..])
  }

  function LowerChar(c: char): char {
    if 'A' <= c <= 'Z' then (c as int - 'A' as int + 'a' as int) as char else c
  }

  /** s.lower() on ASCII letters: no capital is left, and every other
      character stays where it was. */
  function Lower(s: string): (r: string)
    ensures |r| == |s|
    ensures forall k :: 0 <= k < |s| ==> r[k] == LowerChar(s[k])
    ensures forall k :: 0 <= k < |r| ==> !('A' <= r[k] <= 'Z')
    ensures forall k :: 0 <= k < |s| && !('A' <= s[k] <= 'Z') ==> r[k] == s[k]
  {
    seq(|s|, k requires 0 <= k < |s| => LowerChar(s[k]))
  }

  lemma SplitSkipsSeparator(c: char, x: string)
    requires IsSpace(c)
    ensures Split([c] + x) == Split(x)
  {
    var s := [c] + x;
    assert s[1..] == x;
    assert s[LeadingSpaces(s)..] == x[LeadingSpaces(x)..];
  }

  /** A word followed by a separator or by nothing is split off whole. */
  lemma SplitWordFirst(w: string, x: string)
    requires IsWord(w) && (x == [] || IsSpace(x[0]))
    ensures Split(w + x) == [w] + Split(x)
  {
    var s := w + x;
    assert LeadingSpaces(s) == 0;
    assert s[0..] == s;
    assert WordLength(s) == |w| by {
      assert forall k :: 0 <= k < |w| ==> s[k] == w[k];
      assert x != [] ==> s[|w|] == x[0];
    }
    assert s[..|w|] == w;
    assert s[|w|..] == x;
  }

  /** A word, a space and more text split into the word and the split of
      the rest. */
  lemma SplitWordSpace(w: string, rest: string)
    requires IsWord(w)
    ensures Split(w + " " + rest) == [w] + Split(rest)
  {
    ConcatAssoc(w, " ", rest);
    SplitWordFirst(w, " " + rest);
    SplitSkipsSeparator(' ', rest);
  }

  /** Splitting words joined by single spaces gives the words back. */
  lemma {:induction false} SplitJoin(words: seq<string>)
    requires forall i :: 0 <= i < |words| ==> IsWord(words[i])
    ensures Split(Join(words, " ")) == words
  {
    if |words| == 1 {
      SplitWordFirst(words[0], []);
      assert words[0] + [] == words[0];
    } else if |words| > 1 {
      SplitJoin(words[1..]);
      SplitWordSpace(words[0], Join(words[1..], " "));
      assert [words[0]] + words[1..] == words;
    }
  }

  lemma ConcatAssoc<T>(x: seq<T>, y: seq<T>, z: seq<T>)
    ensures x + y + z == x + (y + z)
  {
  }

  /** Dropping the first part moves every later part back by the first
      part and one separator. */
  lemma {:induction false} PartStartShift(parts: seq<string>, sep: string, i: nat)
    requires 0 < i <= |parts|
    ensures PartStart(parts, sep, i) == |parts[0]| + |sep| + PartStart(parts[1..], sep, i - 1)
  {
    if i > 1 {
      PartStartShift(parts, sep, i - 1);
      assert parts[1..][i - 2] == parts[i - 1];
    }
  }

  /** t occurs in s starting at offset at. */
  predicate Occurs(s: string, t: string, at: nat) {
    at + |t| <= |s| && s[at..at + |t|] == t
  }

  /** Part i of sep.join(parts) stands in s at PartStart(parts, sep, i)
      and, unless it is the last part, is followed by the separator. */
  predicate PartPlaced(s: string, parts: seq<string>, sep: string, i: nat)
    requires i < |parts|
  {
    Occurs(s, parts[i], PartStart(parts, sep, i))
    && (i + 1 < |parts| ==> Occurs(s, sep, PartStart(parts, sep, i) + |parts[i]|))
  }

  /** Every part of a join is where PartStart says, followed by the
      separator unless it is the last. */
  lemma {:induction false} JoinPart(parts: seq<string>, sep: string, i: nat)
    requires i < |parts|
    ensures PartPlaced(Join(parts, sep), parts, sep, i)
  {
    if i == 0 {
      JoinFirstPart(parts, sep);
    } else {
      JoinPart(parts[1..], sep, i - 1);
      JoinLaterPart(parts, sep, i);
    }
  }

  lemma JoinFirstPart(parts: seq<string>, sep: string)
    requires parts != []
    ensures PartPlaced(Join(parts, sep), parts, sep, 0)
  {
    if |parts| == 1 {
      assert parts[0][0..|parts[0]|] == parts[0];
    } else {
      var head, rest := parts[0] + sep, Join(parts[1..], sep);
      assert Join(parts, sep) == head + rest;
      SliceOfPrefix(head, rest, 0, |parts[0]|);
      SliceOfPrefix(parts[0], sep, 0, |parts[0]|);
      SliceOfPrefix(head, rest, |parts[0]|, |head|);
      SliceOfSuffix(parts[0], sep, 0, |sep|);
    }
  }

  /** A part after the first keeps its place in the join of the rest,
      shifted by the first part and one separator. */
  lemma JoinLaterPart(parts: seq<string>, sep: string, i: nat)
    requires 0 < i < |parts|
    requires PartPlaced(Join(parts[1..], sep), parts[1..], sep, i - 1)
    ensures PartPlaced(Join(parts, sep), parts, sep, i)
  {
    var head, rest := parts[0] + sep, Join(parts[1..], sep);
    assert Join(parts, sep) == head + rest;
    var a := PartStart(parts[1..], sep, i - 1);
    PartStartShift(parts, sep, i);
    assert parts[1..][i - 1] == parts[i];
    OccursAfter(head, rest, parts[i], a);
    if i + 1 < |parts| {
      OccursAfter(head, rest, sep, a + |parts[i]|);
    }
  }

  /** s is laid out as sep.join(parts): every part at its offset, each
      but the last followed by the separator, and nothing after the last. */
  predicate LaidOut(s: string, parts: seq<string>, sep: string) {
    parts != [] ==>
      |s| == PartStart(parts, sep, |parts| - 1) + |parts[|parts| - 1]|
      && forall i :: 0 <= i < |parts| ==> PartPlaced(s, parts, sep, i)
  }

  /** A join ends with its last part. */
  lemma {:induction false} JoinLength(parts: seq<string>, sep: string)
    requires parts != []
    ensures |Join(parts, sep)| == PartStart(parts, sep, |parts| - 1) + |parts[|parts| - 1]|
  {
    if |parts| > 1 {
      JoinLength(parts[1..], sep);
      PartStartShift(parts, sep, |parts| - 1);
      assert parts[1..][|parts| - 2] == parts[|parts| - 1];
    }
  }

  /** sep.join(parts) is laid out part by part: JoinPart for every part,
      and JoinLength. */
  lemma JoinLayout(parts: seq<string>, sep: string)
    ensures LaidOut(Join(parts, sep), parts, sep)
  {
    if parts != [] {
      JoinLength(parts, sep);
    }
    forall i | 0 <= i < |parts| {
      JoinPart(parts, sep, i);
    }
  }

  /** The layout fixes the text: the only text laid out as sep.join(parts)
      is sep.join(parts) itself. */
  lemma {:induction false} LaidOutUnique(s: string, parts: seq<string>, sep: string)
    requires parts != [] && LaidOut(s, parts, sep)
    ensures s == Join(parts, sep)
    decreases |parts|
  {
    var p := parts[0];
    assert PartPlaced(s, parts, sep, 0);
    if |parts| == 1 {
      assert s == s[0..|p|];
    } else {
      var w := |p| + |sep|;
      var rest := s[w..];
      AdjacentSlices(s, 0, |p|, w);
      forall i | 0 <= i < |parts| - 1
        ensures PartPlaced(rest, parts[1..], sep, i)
      {
        LaterPartPlaced(s, parts, sep, i);
      }
      PartStartShift(parts, sep, |parts| - 1);
      assert parts[1..][|parts| - 2] == parts[|parts| - 1];
      LaidOutUnique(rest, parts[1..], sep);
      assert s == s[..w] + rest;
    }
  }

  /** Part i + 1 of a layout is part i of the layout of the rest, once the
      first part and its separator are cut off. */
  lemma LaterPartPlaced(s: string, parts: seq<string>, sep: string, i: nat)
    requires i + 1 < |parts| && LaidOut(s, parts, sep)
    ensures |parts[0]| + |sep| <= |s|
    ensures PartPlaced(s[|parts[0]| + |sep|..], parts[1..], sep, i)
  {
    var w := |parts[0]| + |sep|;
    assert PartPlaced(s, parts, sep, 0);
    assert PartPlaced(s, parts, sep, i + 1);
    PartStartShift(parts, sep, i + 1);
    assert parts[1..][i] == parts[i + 1];
    OccursWithin(s, w, parts[i + 1], PartStart(parts[1..], sep, i));
    if i + 2 < |parts| {
      OccursWithin(s, w, sep, PartStart(parts[1..], sep, i) + |parts[i + 1]|);
    }
  }

  /** What occurs in s past offset w occurs in s[w..], w earlier. */
  lemma OccursWithin(s: string, w: nat, t: string, at: nat)
    requires w <= |s| && Occurs(s, t, w + at)
    ensures Occurs(s[w..], t, at)
  {
    assert s[w..][at..at + |t|] == s[w + at..w + at + |t|];
  }

  /** With parts of ten characters and a two-character separator, part k
      begins at 12 * k. */
  lemma {:induction false} FixedWidthStart(parts: seq<string>, sep: string, k: nat)
    requires forall i :: 0 <= i < |parts| ==> |parts[i]| == 10
    requires k <= |parts| && |sep| == 2
    ensures PartStart(parts, sep, k) == 12 * k
  {
    if k > 0 {
      FixedWidthStart(parts, sep, k - 1);
    }
  }

  /** Joining ten-character parts with a two-character separator places
      part k at offset 12 * k and the separator right after it, so every
      part can be read back. */
  lemma JoinFixedWidth(parts: seq<string>, sep: string, k: nat)
    requires forall i :: 0 <= i < |parts| ==> |parts[i]| == 10
    requires k < |parts| && |sep| == 2
    ensures |Join(parts, sep)| == 12 * |parts| - 2
    ensures Join(parts, sep)[12 * k..12 * k + 10] == parts[k]
    ensures k + 1 < |parts| ==> Join(parts, sep)[12 * k..12 * k + 12] == parts[k] + sep
  {
    JoinLength(parts, sep);
    FixedWidthStart(parts, sep, |parts| - 1);
    FixedWidthStart(parts, sep, k);
    JoinPart(parts, sep, k);
    if k + 1 < |parts| {
      AdjacentSlices(Join(parts, sep), 12 * k, 12 * k + 10, 12 * k + 12);
    }
  }

  /** The characters of b keep their positions, shifted by |a|, in a + b + c. */
  lemma SliceOfMiddle<T>(a: seq<T>, b: seq<T>, c: seq<T>, i: nat, j: nat)
    requires i <= j <= |b|
    ensures (a + b + c)[|a| + i..|a| + j] == b[i..j]
  {
    var s := a + b + c;
    assert forall q :: i <= q < j ==> s[|a| + q] == b[q];
  }

  /** What occurs in b occurs in a + b, |a| further on. */
  lemma OccursAfter(a: string, b: string, t: string, at: nat)
    requires Occurs(b, t, at)
    ensures Occurs(a + b, t, |a| + at)
  {
    SliceOfSuffix(a, b, at, at + |t|);
  }

  /** A slice within the front of a + b is a slice of a. */
  lemma SliceOfPrefix<T>(a: seq<T>, b: seq<T>, i: nat, j: nat)
    requires i <= j <= |a|
    ensures (a + b)[i..j] == a[i..j]
  {
    assert forall q :: i <= q < j ==> (a + b)[q] == a[q];
  }

  /** A slice within the back of a + b is a slice of b, shifted by |a|. */
  lemma SliceOfSuffix<T>(a: seq<T>, b: seq<T>, i: nat, j: nat)
    requires i <= j <= |b|
    ensures (a + b)[|a| + i..|a| + j] == b[i..j]
  {
    assert forall q :: i <= q < j ==> (a + b)[|a| + q] == b[q];
  }

  /** Two adjacent slices make up the slice that spans both. */
  lemma AdjacentSlices<T>(s: seq<T>, i: nat, j: nat, k: nat)
    requires i <= j <= k <= |s|
    ensures s[i..k] == s[i..j] + s[j..k]
  {
  }

  /** A join starts with its first part. */
  lemma JoinStartsWithFirst(parts: seq<string>, sep: string)
    requires parts != []
    ensures |parts[0]| <= |Join(parts, sep)| && Join(parts, sep)[..|parts[0]|] == parts[0]
  {
  }
}
