/** Splitting a line into words on a literal, non-empty delimiter, as the
    tree builder of com.solovev.util.TreeNodeCreator does with
    `String.split`. */
module Tokenizer {

  /** `d` occurs in `s` starting at position `i`. */
  ghost predicate OccursAt(s: string, d: string, i: int) {
    0 <= i && i + |d| <= |s| && s[i..i + |d|] == d
  }

  /** The position of the leftmost occurrence of `d` in `s`, or -1. */
  function Find(s: string, d: string): (k: int)
    requires |d| > 0
    ensures -1 <= k && (k >= 0 ==> k + |d| <= |s|)
  {
    if |s| < |d| then -1
    else if s[..|d|] == d then 0
    else
      var k := Find(s[1..], d);
      if k == -1 then -1 else k + 1
  }

  /** Find answers the leftmost occurrence, and -1 exactly when there is
      none. */
  lemma {:induction false} FindIsLeftmost(s: string, d: string)
    requires |d| > 0
    ensures var k := Find(s, d);
            && (k >= 0 ==> OccursAt(s, d, k) && forall j | 0 <= j < k :: !OccursAt(s, d, j))
            && (k == -1 ==> forall j | 0 <= j :: !OccursAt(s, d, j))
    decreases |s|, 1
  {
    if |s| < |d| {
    } else if s[..|d|] == d {
      assert s[0..|d|] == s[..|d|];
    } else {
      FindSkipsFirst(s, d);
    }
  }

  /** The case of FindIsLeftmost where `d` does not start `s`. */
  lemma {:induction false} FindSkipsFirst(s: string, d: string)
    requires 0 < |d| <= |s| && s[..|d|] != d
    ensures var k := Find(s, d);
            && (k >= 0 ==> OccursAt(s, d, k) && forall j | 0 <= j < k :: !OccursAt(s, d, j))
            && (k == -1 ==> forall j | 0 <= j :: !OccursAt(s, d, j))
    decreases |s|, 0
  {
    assert !OccursAt(s, d, 0) by {
      assert s[0..|d|] == s[..|d|];
    }
    FindIsLeftmost(s[1..], d);
    var k' := Find(s[1..], d);
    if k' == -1 {
      NoneInTail(s, d);
    } else {
      FirstInTail(s, d, k');
    }
  }

  /** No occurrence at the front and none in the tail: none at all. */
  lemma NoneInTail(s: string, d: string)
    requires |s| > 0 && !OccursAt(s, d, 0)
    requires forall j | 0 <= j :: !OccursAt(s[1..], d, j)
    ensures forall j | 0 <= j :: !OccursAt(s, d, j)
  {
    forall j | 1 <= j ensures !OccursAt(s, d, j) {
      OccursShift(s, d, j);
    }
  }

  /** No occurrence at the front and a leftmost one at `k` in the tail: the
      leftmost one in `s` is at `k + 1`. */
  lemma FirstInTail(s: string, d: string, k: int)
    requires |s| > 0 && !OccursAt(s, d, 0) && 0 <= k && OccursAt(s[1..], d, k)
    requires forall j | 0 <= j < k :: !OccursAt(s[1..], d, j)
    ensures OccursAt(s, d, k + 1) && forall j | 0 <= j < k + 1 :: !OccursAt(s, d, j)
  {
    OccursShift(s, d, k + 1);
    forall j | 1 <= j < k + 1 ensures !OccursAt(s, d, j) {
      OccursShift(s, d, j);
    }
  }

  /** An occurrence past the first position is an occurrence in the tail of
      `s`, one position earlier. */
  lemma OccursShift(s: string, d: string, j: int)
    requires 1 <= j && |s| > 0
    ensures OccursAt(s, d, j) <==> OccursAt(s[1..], d, j - 1)
  {
    if j + |d| <= |s| {
      assert s[1..][j - 1..j - 1 + |d|] == s[j..j + |d|];
    }
  }

  /** The segments of `s` between the occurrences of `d`, scanning left to
      right, empty segments included. */
  function Split(s: string, d: string): (parts: seq<string>)
    requires |d| > 0
    ensures |parts| > 0
    decreases |s|
  {
    var k := Find(s, d);
    if k == -1 then [s] else [s[..k]] + Split(s[k + |d|..], d)
  }

  /** The parts with `d` between each two of them. */
  function Join(parts: seq<string>, d: string): string
    requires |parts| > 0
  {
    if |parts| == 1 then parts[0] else parts[0] + d + Join(parts[1..], d)
  }

  /** Splitting loses nothing: joining the segments back gives the line. */
  lemma {:induction false} JoinSplit(s: string, d: string)
    requires |d| > 0
    ensures Join(Split(s, d), d) == s
    decreases |s|
  {
    var k := Find(s, d);
    if k != -1 {
      FindIsLeftmost(s, d);
      var rest := s[k + |d|..];
      JoinSplit(rest, d);
      var parts := [s[..k]] + Split(rest, d);
      assert parts[1..] == Split(rest, d);
      Reassemble(s, k, k + |d|);
      calc {
        Join(Split(s, d), d);
        Join(parts, d);
        s[..k] + d + Join(Split(rest, d), d);
        s[..k] + s[k..k + |d|] + rest;
      }
    }
  }

  lemma Reassemble(s: string, i: int, j: int)
    requires 0 <= i <= j <= |s|
    ensures s == s[..i] + s[i..j] + s[j..]
  {
  }

  /** No segment holds the delimiter. */
  lemma {:induction false} SegmentsAvoidDelimiter(s: string, d: string)
    requires |d| > 0
    ensures forall i | 0 <= i < |Split(s, d)| :: Find(Split(s, d)[i], d) == -1
    decreases |s|
  {
    var k := Find(s, d);
    if k != -1 {
      var rest := s[k + |d|..];
      SegmentsAvoidDelimiter(rest, d);
      FirstSegmentAvoidsDelimiter(s, d);
      var parts := Split(s, d);
      assert parts == [s[..k]] + Split(rest, d);
      forall i | 0 <= i < |parts| ensures Find(parts[i], d) == -1 {
        if i > 0 {
          assert parts[i] == Split(rest, d)[i - 1];
        }
      }
    }
  }

  /** The text before the leftmost occurrence of `d` does not hold `d`. */
  lemma FirstSegmentAvoidsDelimiter(s: string, d: string)
    requires |d| > 0 && Find(s, d) != -1
    ensures Find(s[..Find(s, d)], d) == -1
  {
    var k := Find(s, d);
    var first := s[..k];
    FindIsLeftmost(s, d);
    forall i | 0 <= i ensures !OccursAt(first, d, i) {
      OccursInPrefix(s, d, k, i);
    }
    FindIsLeftmost(first, d);
  }

  /** An occurrence in a prefix of `s` is an occurrence in `s` that ends
      within the prefix. */
  lemma OccursInPrefix(s: string, d: string, k: int, i: int)
    requires 0 <= k <= |s|
    ensures OccursAt(s[..k], d, i) ==> OccursAt(s, d, i) && i + |d| <= k
  {
    if OccursAt(s[..k], d, i) {
      assert s[..k][i..i + |d|] == s[i..i + |d|];
    }
  }


  /** The non-empty strings of `xs`, in order. */
  function NonEmpty(xs: seq<string>): (ys: seq<string>)
    ensures forall i | 0 <= i < |ys| :: ys[i] != [] && ys[i] in xs
    ensures forall x | x in xs && x != [] :: x in ys
  {
    if xs == [] then []
    else if xs[0] == [] then NonEmpty(xs[1..])
    else [xs[0]] + NonEmpty(xs[1..])
  }

  /** What `s.split(d)` answers in Java for a literal delimiter: the line
      itself when the delimiter does not occur, otherwise the segments with
      the trailing empty ones removed. */
  function JavaSplit(s: string, d: string): (words: seq<string>)
    requires |d| > 0
    ensures Find(s, d) == -1 ==> words == [s]
    ensures Find(s, d) != -1 ==> |words| == 0 || words[|words| - 1] != []
  {
    if Find(s, d) == -1 then [s] else DropTrailingEmpty(Split(s, d))
  }

  /** `xs` without the empty strings at its end. */
  function DropTrailingEmpty(xs: seq<string>): (ys: seq<string>)
    ensures |ys| <= |xs|
    ensures |ys| == 0 || ys[|ys| - 1] != []
  {
    if xs == [] then []
    else if xs[|xs| - 1] == [] then DropTrailingEmpty(xs[..|xs| - 1])
    else xs
  }

  /** What DropTrailingEmpty removes is a run of empty strings at the end:
      the result is a prefix of `xs` and everything after it is empty. */
  lemma {:induction false} DropTrailingEmptyPrefix(xs: seq<string>)
    ensures var ys := DropTrailingEmpty(xs);
            && ys == xs[..|ys|]
            && forall i | |ys| <= i < |xs| :: xs[i] == []
    decreases |xs|
  {
    if xs != [] && xs[|xs| - 1] == [] {
      var front := xs[..|xs| - 1];
      DropTrailingEmptyPrefix(front);
      var ys := DropTrailingEmpty(front);
      assert front[..|ys|] == xs[..|ys|];
    } else {
      assert xs[..|xs|] == xs;
    }
  }

  /** Removing trailing empty strings does not change the non-empty ones. */
  lemma {:induction false} NonEmptyDropTrailing(xs: seq<string>)
    ensures NonEmpty(DropTrailingEmpty(xs)) == NonEmpty(xs)
    decreases |xs|
  {
    if xs != [] && xs[|xs| - 1] == [] {
      var ys := xs[..|xs| - 1];
      NonEmptyDropTrailing(ys);
      NonEmptyAppendEmpty(ys);
      assert xs == ys + [[]];
    }
  }

  lemma {:induction false} NonEmptyAppendEmpty(xs: seq<string>)
    ensures NonEmpty(xs + [[]]) == NonEmpty(xs)
    decreases |xs|
  {
    if xs != [] {
      NonEmptyAppendEmpty(xs[1..]);
      assert (xs + [[]])[1..] == xs[1..] + [[]];
    }
  }

  /** The words the builder works on: the non-empty results of `split`.
      Every word is a non-empty stretch free of the delimiter, every
      non-empty segment between delimiters is a word, and a line without
      the delimiter is its own single word (none when it is empty). */
  function Tokens(s: string, d: string): (ts: seq<string>)
    requires |d| > 0
    ensures forall i | 0 <= i < |ts| :: ts[i] != [] && Find(ts[i], d) == -1
    ensures forall w | w in Split(s, d) && w != [] :: w in ts
    ensures Find(s, d) == -1 ==> ts == if s == [] then [] else [s]
  {
    if Find(s, d) != -1 then
      NonEmptyDropTrailing(Split(s, d));
      SegmentsAvoidDelimiter(s, d);
      NonEmpty(JavaSplit(s, d))
    else
      assert Split(s, d) == [s];
      NonEmpty(JavaSplit(s, d))
  }

  /** The words are exactly the non-empty segments between delimiters, in
      order; none of them is empty or holds the delimiter. */
  lemma TokensAreSegments(s: string, d: string)
    requires |d| > 0
    ensures Tokens(s, d) == NonEmpty(Split(s, d))
    ensures forall i | 0 <= i < |Tokens(s, d)| :: Tokens(s, d)[i] != [] && Find(Tokens(s, d)[i], d) == -1
  {
    if Find(s, d) != -1 {
      NonEmptyDropTrailing(Split(s, d));
    } else {
      assert Split(s, d) == [s];
    }
    SegmentsAvoidDelimiter(s, d);
  }

  /** The stop rule of the Scanner variant: the line splits into more than
      one word and the first two are equal. */
  function IsTerminator(line: string, d: string): (b: bool)
    requires |d| > 0
    ensures b ==> Find(line, d) != -1
  {
    var words := JavaSplit(line, d);
    |words| > 1 && words[0] == words[1]
  }

  /** The stop rule in terms of the raw segments: the first two segments are
      equal and, when they are both empty, some later segment is not. */
  lemma TerminatorBySegments(line: string, d: string)
    requires |d| > 0
    ensures var parts := Split(line, d);
            IsTerminator(line, d) <==>
              |parts| > 1 && parts[0] == parts[1] &&
              (parts[1] != [] || exists k | 2 <= k < |parts| :: parts[k] != [])
  {
    var parts := Split(line, d);
    if Find(line, d) == -1 {
      assert parts == [line];
    } else {
      var words := DropTrailingEmpty(parts);
      DropTrailingEmptyPrefix(parts);
      if |parts| > 1 && parts[0] == parts[1] && parts[1] == [] {
        if exists k | 2 <= k < |parts| :: parts[k] != [] {
          var k :| 2 <= k < |parts| && parts[k] != [];
          assert |words| > k;
        }
      }
    }
  }
}
