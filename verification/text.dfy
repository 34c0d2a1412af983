/**
 * Python's `str.split(sep)` for a non-empty separator, and its inverse
 * `sep.join(pieces)`. Splitting scans left to right: each piece ends at the
 * leftmost occurrence of the separator that starts after the previous one.
 */
module Text {
  import opened Wrappers

  /** `d` occurs in `s` starting at index `i`. */
  predicate OccursAt(s: string, d: string, i: int) {
    0 <= i && i + |d| <= |s| && s[i..i + |d|] == d
  }

  /** Python's `d in s`. */
  predicate Contains(s: string, d: string) {
    exists i :: 0 <= i <= |s| && OccursAt(s, d, i)
  }

  /** Occurrences in `s[1..]` are the occurrences in `s` shifted by one. */
  lemma OccursShift(s: string, d: string, i: int)
    requires |s| > 0 && i >= 1
    ensures OccursAt(s, d, i) <==> OccursAt(s[1..], d, i - 1)
  {
    if i + |d| <= |s| {
      assert s[1..][i - 1..i - 1 + |d|] == s[i..i + |d|];
    }
  }

  /** An occurrence inside a prefix of `s` is an occurrence in `s`. */
  lemma OccursInPrefix(s: string, d: string, n: int, i: int)
    requires 0 <= n <= |s|
    ensures OccursAt(s[..n], d, i) ==> OccursAt(s, d, i)
  {
    if OccursAt(s[..n], d, i) {
      assert s[..n][i..i + |d|] == s[i..i + |d|];
    }
  }

  /** An occurrence inside a suffix of `s` is an occurrence in `s`, shifted. */
  lemma OccursInSuffix(s: string, d: string, n: int, i: int)
    requires 0 <= n <= |s|
    ensures OccursAt(s[n..], d, i) ==> OccursAt(s, d, i + n)
  {
    if OccursAt(s[n..], d, i) {
      assert s[n..][i..i + |d|] == s[i + n..i + n + |d|];
    }
  }

  /** For a one-character separator an occurrence is just that character. */
  lemma OccursAtChar(s: string, c: char, i: int)
    ensures OccursAt(s, [c], i) <==> 0 <= i < |s| && s[i] == c
  {
    if 0 <= i < |s| {
      assert s[i..i + 1] == [s[i]];
    }
  }

  /** A string without the separator's first character cannot contain it. */
  lemma NoFirstCharNoOccurrence(s: string, d: string)
    requires |d| > 0
    requires forall k :: 0 <= k < |s| ==> s[k] != d[0]
    ensures !Contains(s, d)
  {
    forall i | 0 <= i <= |s|
      ensures !OccursAt(s, d, i)
    {
      if i + |d| <= |s| {
        assert s[i..i + |d|][0] == s[i];
      }
    }
  }

  /** Python's `s.find(d)`: the leftmost occurrence of `d` in `s`, if any. */
  function IndexOf(s: string, d: string): (r: Option<nat>)
    requires |d| > 0
    ensures r.Some? ==> OccursAt(s, d, r.value)
    decreases |s|
  {
    if |s| < |d| then
      None
    else if s[..|d|] == d then
      Some(0)
    else
      match IndexOf(s[1..], d)
      case None => None
      case Some(j) =>
        OccursShift(s, d, j + 1);
        Some(j + 1)
  }

  /**
   * `IndexOf` finds the leftmost occurrence, and finds nothing exactly when
   * `d` does not occur in `s`.
   */
  lemma {:induction false} IndexOfLeftmost(s: string, d: string)
    requires |d| > 0
    ensures IndexOf(s, d).Some? ==> forall j :: 0 <= j < IndexOf(s, d).value ==> !OccursAt(s, d, j)
    ensures IndexOf(s, d).None? <==> !Contains(s, d)
    decreases |s|
  {
    if |s| < |d| {
    } else if s[..|d|] == d {
      assert OccursAt(s, d, 0);
    } else {
      IndexOfLeftmost(s[1..], d);
      assert !OccursAt(s, d, 0);
      forall j | 1 <= j
        ensures OccursAt(s, d, j) <==> OccursAt(s[1..], d, j - 1)
      {
        OccursShift(s, d, j);
      }
      if Contains(s, d) {
        var i :| 0 <= i <= |s| && OccursAt(s, d, i);
        assert OccursAt(s[1..], d, i - 1);
      }
      if Contains(s[1..], d) {
        var i :| 0 <= i <= |s[1..]| && OccursAt(s[1..], d, i);
        assert OccursAt(s, d, i + 1);
      }
    }
  }

  /** Python's `s.split(d)`. */
  function Split(s: string, d: string): (r: seq<string>)
    requires |d| > 0
    ensures |r| >= 1
    decreases |s|
  {
    match IndexOf(s, d)
    case None => [s]
    case Some(i) => [s[..i]] + Split(s[i + |d|..], d)
  }

  /** One step of the split: the first piece ends at the leftmost separator. */
  lemma SplitStep(s: string, d: string, i: nat)
    requires |d| > 0
    requires IndexOf(s, d) == Some(i)
    ensures Split(s, d) == [s[..i]] + Split(s[i + |d|..], d)
  {
  }

  /** Python's `d.join(ps)`. */
  function Join(ps: seq<string>, d: string): string
  {
    if |ps| == 0 then ""
    else if |ps| == 1 then ps[0]
    else ps[0] + d + Join(ps[1..], d)
  }

  /** Splitting and joining back with the same separator gives the string back. */
  lemma {:induction false} JoinSplit(s: string, d: string)
    requires |d| > 0
    ensures Join(Split(s, d), d) == s
    decreases |s|
  {
    match IndexOf(s, d)
    case None =>
    case Some(i) =>
      var rest := s[i + |d|..];
      var tail := Split(rest, d);
      SplitStep(s, d, i);
      JoinSplit(rest, d);
      assert Join([s[..i]] + tail, d) == s[..i] + d + Join(tail, d);
      assert s == s[..i] + d + rest;
  }

  /** No piece of a split contains the separator. */
  lemma {:induction false} SplitPiecesFree(s: string, d: string)
    requires |d| > 0
    ensures forall k :: 0 <= k < |Split(s, d)| ==> !Contains(Split(s, d)[k], d)
    decreases |s|
  {
    IndexOfLeftmost(s, d);
    match IndexOf(s, d)
    case None =>
    case Some(i) =>
      var rest := s[i + |d|..];
      var tail := Split(rest, d);
      SplitStep(s, d, i);
      SplitPiecesFree(rest, d);
      forall j | 0 <= j <= i
        ensures !OccursAt(s[..i], d, j)
      {
        OccursInPrefix(s, d, i, j);
      }
      forall k | 0 <= k < |Split(s, d)|
        ensures !Contains(Split(s, d)[k], d)
      {
        if k > 0 {
          assert Split(s, d)[k] == tail[k - 1];
        }
      }
  }

  /** The split has a second piece exactly when the separator occurs. */
  lemma SplitHasSecondPiece(s: string, d: string)
    requires |d| > 0
    ensures |Split(s, d)| >= 2 <==> Contains(s, d)
  {
    IndexOfLeftmost(s, d);
  }

  /**
   * The first piece of a split is a prefix of `s`; it is all of `s` exactly
   * when there is no other piece, and otherwise the separator follows it.
   */
  lemma FirstPiece(s: string, d: string)
    requires |d| > 0
    ensures var p := Split(s, d)[0];
      && |p| <= |s|
      && s[..|p|] == p
      && (|Split(s, d)| == 1 <==> |p| == |s|)
      && (|Split(s, d)| > 1 ==> OccursAt(s, d, |p|))
  {
    match IndexOf(s, d)
    case None =>
    case Some(i) =>
      SplitStep(s, d, i);
  }

  /**
   * `s` starts with `p0 + d + p1`, and what follows is either nothing or
   * another occurrence of `d`.
   */
  predicate TwoPieceShape(s: string, d: string, p0: string, p1: string) {
    var n := |p0| + |d| + |p1|;
    && n <= |s|
    && s[..n] == p0 + d + p1
    && (n == |s| || OccursAt(s, d, n))
  }

  /** Assembles the shape from an occurrence and the first piece after it. */
  lemma ShapeFromOccurrence(s: string, d: string, i: nat, p1: string)
    requires OccursAt(s, d, i)
    requires |p1| <= |s| - i - |d| && s[i + |d|..][..|p1|] == p1
    requires |p1| == |s| - i - |d| || OccursAt(s[i + |d|..], d, |p1|)
    ensures TwoPieceShape(s, d, s[..i], p1)
  {
    var n := i + |d| + |p1|;
    assert s[..n] == s[..i] + d + p1 by {
      assert s[..n] == s[..i] + s[i..i + |d|] + s[i + |d|..][..|p1|];
    }
    if n < |s| {
      OccursInSuffix(s, d, i + |d|, |p1|);
    }
  }

  /** The first two pieces of a split, when the separator occurs. */
  lemma FirstTwoPieces(s: string, d: string)
    requires |d| > 0
    requires Contains(s, d)
    ensures |Split(s, d)| >= 2
    ensures TwoPieceShape(s, d, Split(s, d)[0], Split(s, d)[1])
  {
    IndexOfLeftmost(s, d);
    var i := IndexOf(s, d).value;
    var rest := s[i + |d|..];
    SplitStep(s, d, i);
    FirstPiece(rest, d);
    ShapeFromOccurrence(s, d, i, Split(rest, d)[0]);
  }

  /** A string free of the separator splits into just itself. */
  lemma SplitWithout(s: string, d: string)
    requires |d| > 0 && !Contains(s, d)
    ensures Split(s, d) == [s]
  {
    IndexOfLeftmost(s, d);
  }

  /**
   * Splitting `p + d + q` where the separator's first character is absent from
   * `p` cuts exactly after `p`.
   */
  lemma SplitAfterClean(p: string, d: string, q: string)
    requires |d| > 0
    requires forall k :: 0 <= k < |p| ==> p[k] != d[0]
    ensures Split(p + d + q, d) == [p] + Split(q, d)
  {
    var s := p + d + q;
    assert OccursAt(s, d, |p|) by {
      assert s[|p|..|p| + |d|] == d;
    }
    forall j | 0 <= j < |p|
      ensures !OccursAt(s, d, j)
    {
      if j + |d| <= |s| {
        assert s[j..j + |d|][0] == s[j] == p[j];
      }
    }
    IndexOfLeftmost(s, d);
    var i := IndexOf(s, d).value;
    assert i == |p|;
    assert s[..i] == p;
    assert s[i + |d|..] == q;
  }

  /**
   * For a one-character separator, splitting undoes joining whenever no piece
   * contains the separator.
   */
  lemma {:induction false} SplitJoin(ps: seq<string>, c: char)
    requires |ps| >= 1
    requires forall k, m :: 0 <= k < |ps| && 0 <= m < |ps[k]| ==> ps[k][m] != c
    ensures Split(Join(ps, [c]), [c]) == ps
    decreases |ps|
  {
    if |ps| == 1 {
      NoFirstCharNoOccurrence(ps[0], [c]);
    } else {
      assert forall m :: 0 <= m < |ps[0]| ==> ps[0][m] != c;
      SplitAfterClean(ps[0], [c], Join(ps[1..], [c]));
      SplitJoin(ps[1..], c);
    }
  }
}
