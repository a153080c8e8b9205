/**
 * The part of ECMAScript's regular-expression machinery that the utilities use
 * with the global (`g`) flag: `RegExp.prototype.exec` searching from `lastIndex`,
 * the loop that calls `exec` until it fails, and `String.prototype.replace`.
 *
 * A pattern is given as a `Matcher`: the outcome of trying it at the START of a
 * text. None of the patterns modelled here has a look-behind, an anchor or a
 * word boundary, so trying a pattern at position `p` of `s` is the same as trying
 * it at the start of `s[p..]`.
 */
module JsRegex {
  import opened Wrappers
  import opened JsText

  /** A successful attempt: how many characters the pattern consumed and what its groups captured. */
  datatype Match<C> = Match(len: nat, captures: C)

  type Matcher<C> = string -> Option<Match<C>>

  /** What `exec` reports: the index where the match starts, and the match. */
  datatype Found<C> = Found(index: nat, m: Match<C>) {
    function End(): nat { index + m.len }
  }

  /** Every match consumes at least one character and stays inside the text. */
  ghost predicate Advances<C>(m: Matcher<C>) {
    forall t :: m(t).Some? ==> 0 < m(t).value.len <= |t|
  }

  /** `exec` on a global regex: the leftmost match starting at or after `lastIndex`. */
  function Exec<C>(s: string, lastIndex: nat, m: Matcher<C>): (r: Option<Found<C>>)
    requires lastIndex <= |s|
    ensures r.Some? ==> lastIndex <= r.value.index <= |s| && m(s[r.value.index..]) == Some(r.value.m)
    ensures r.Some? ==> forall q :: lastIndex <= q < r.value.index ==> m(s[q..]).None?
    ensures r.None? ==> forall q :: lastIndex <= q <= |s| ==> m(s[q..]).None?
    decreases |s| - lastIndex
  {
    match m(s[lastIndex..])
    case Some(mt) => Some(Found(lastIndex, mt))
    case None => if lastIndex == |s| then None else Exec(s, lastIndex + 1, m)
  }

  /**
   * The matches `exec` returns, call after call, when the caller loops until it
   * fails; each call resumes where the previous match ended.
   */
  function MatchAllFrom<C>(s: string, lastIndex: nat, m: Matcher<C>): (r: seq<Found<C>>)
    requires Advances(m) && lastIndex <= |s|
    ensures forall i :: 0 <= i < |r| ==>
              lastIndex <= r[i].index && r[i].End() <= |s| && m(s[r[i].index..]) == Some(r[i].m)
    ensures forall i, j :: 0 <= i < j < |r| ==> r[i].End() <= r[j].index
    ensures r == [] <==> forall q :: lastIndex <= q <= |s| ==> m(s[q..]).None?
    decreases |s| - lastIndex
  {
    match Exec(s, lastIndex, m)
    case None => []
    case Some(f) => [f] + MatchAllFrom(s, f.End(), m)
  }

  /** The pattern matches at no position from `lo` up to, but not including, `hi`. */
  ghost predicate NoMatchIn<C>(s: string, m: Matcher<C>, lo: nat, hi: nat) {
    forall q :: lo <= q < hi && q <= |s| ==> m(s[q..]).None?
  }

  /** The loop skips no match: the pattern matches nowhere before the first match it visits. */
  lemma MatchAllFromNoneBefore<C>(s: string, lastIndex: nat, m: Matcher<C>)
    requires Advances(m) && lastIndex <= |s|
    ensures var r := MatchAllFrom(s, lastIndex, m);
            r != [] ==> NoMatchIn(s, m, lastIndex, r[0].index)
  {
  }

  /** ... nowhere between the end of one visited match and the start of the next ... */
  lemma {:induction false} MatchAllFromNoneBetween<C>(s: string, lastIndex: nat, m: Matcher<C>)
    requires Advances(m) && lastIndex <= |s|
    ensures var r := MatchAllFrom(s, lastIndex, m);
            forall i :: 0 <= i < |r| - 1 ==> NoMatchIn(s, m, r[i].End(), r[i + 1].index)
    decreases |s| - lastIndex
  {
    match Exec(s, lastIndex, m)
    case None =>
    case Some(f) =>
      var rest := MatchAllFrom(s, f.End(), m);
      var r := [f] + rest;
      assert MatchAllFrom(s, lastIndex, m) == r;
      MatchAllFromNoneBetween(s, f.End(), m);
      MatchAllFromNoneBefore(s, f.End(), m);
      forall i | 0 <= i < |r| - 1 ensures NoMatchIn(s, m, r[i].End(), r[i + 1].index) {
        assert r[i + 1] == rest[i];
        if 0 < i {
          assert r[i] == rest[i - 1];
        }
      }
  }

  /** ... and nowhere after the last visited match. */
  lemma {:induction false} MatchAllFromNoneAfter<C>(s: string, lastIndex: nat, m: Matcher<C>)
    requires Advances(m) && lastIndex <= |s|
    ensures var r := MatchAllFrom(s, lastIndex, m);
            r != [] ==> NoMatchIn(s, m, r[|r| - 1].End(), |s| + 1)
    decreases |s| - lastIndex
  {
    match Exec(s, lastIndex, m)
    case None =>
    case Some(f) =>
      var rest := MatchAllFrom(s, f.End(), m);
      assert MatchAllFrom(s, lastIndex, m) == [f] + rest;
      MatchAllFromNoneAfter(s, f.End(), m);
      if rest != [] {
        assert ([f] + rest)[|rest|] == rest[|rest| - 1];
      }
  }

  /**
   * `s.replace(regex, replacement)` with a global regex, continued from `lastIndex`:
   * every match is replaced by `f` of its captures, the text between matches is
   * copied. It is written one position at a time: where the pattern matches, the
   * replacement is emitted and the scan resumes after the match; elsewhere one
   * character is copied. `ReplaceFromExec` shows this is the same as copying up to
   * the match `exec` finds.
   */
  function ReplaceFrom<C>(s: string, lastIndex: nat, m: Matcher<C>, f: C -> string): string
    requires Advances(m) && lastIndex <= |s|
    decreases |s| - lastIndex
  {
    if lastIndex == |s| then []
    else match m(s[lastIndex..])
      case Some(mt) => f(mt.captures) + ReplaceFrom(s, lastIndex + mt.len, m, f)
      case None => [s[lastIndex]] + ReplaceFrom(s, lastIndex + 1, m, f)
  }

  function ReplaceAll<C>(s: string, m: Matcher<C>, f: C -> string): string
    requires Advances(m)
  {
    ReplaceFrom(s, 0, m, f)
  }

  /** Nothing is left to replace at the end of the text. */
  lemma ReplaceAtEnd<C>(s: string, m: Matcher<C>, f: C -> string)
    requires Advances(m)
    ensures ReplaceFrom(s, |s|, m, f) == []
  {
  }

  /**
   * Global replace read one position at a time, where the pattern matches: the
   * replacement is emitted and the scan resumes after the match.
   */
  lemma ReplaceAtMatch<C>(s: string, lastIndex: nat, m: Matcher<C>, f: C -> string, mt: Match<C>, out: string, next: nat)
    requires Advances(m) && lastIndex < |s| && m(s[lastIndex..]) == Some(mt) && f(mt.captures) == out
    requires next == lastIndex + mt.len
    ensures next <= |s|
    ensures ReplaceFrom(s, lastIndex, m, f) == out + ReplaceFrom(s, next, m, f)
  {
  }

  /** ... and where it does not: the character is copied and the scan moves on by one. */
  lemma ReplaceCopies<C>(s: string, lastIndex: nat, m: Matcher<C>, f: C -> string)
    requires Advances(m) && lastIndex < |s| && m(s[lastIndex..]).None?
    ensures ReplaceFrom(s, lastIndex, m, f) == [s[lastIndex]] + ReplaceFrom(s, lastIndex + 1, m, f)
  {
  }

  /**
   * Replacing from `k` only looks at the text from `k` on: dropping any part of
   * the text before `k` changes nothing.
   */
  lemma {:induction false} ReplaceFromDrop<C>(s: string, j: nat, k: nat, m: Matcher<C>, f: C -> string)
    requires Advances(m) && j <= k <= |s|
    ensures ReplaceFrom(s, k, m, f) == ReplaceFrom(s[j..], k - j, m, f)
    decreases |s| - k
  {
    if k < |s| {
      var u := s[j..];
      assert u[k - j..] == s[k..];
      match m(s[k..])
      case Some(mt) =>
        ReplaceFromDrop(s, j, k + mt.len, m, f);
      case None =>
        assert u[k - j] == s[k];
        ReplaceFromDrop(s, j, k + 1, m, f);
    }
  }

  /** A whole-text replace that starts with a match: its replacement, then the rest replaced on its own. */
  lemma ReplaceAllAtMatch<C>(s: string, m: Matcher<C>, f: C -> string, mt: Match<C>)
    requires Advances(m) && m(s) == Some(mt)
    ensures mt.len <= |s|
    ensures ReplaceAll(s, m, f) == f(mt.captures) + ReplaceAll(s[mt.len..], m, f)
  {
    assert s[0..] == s;
    ReplaceAtMatch(s, 0, m, f, mt, f(mt.captures), mt.len);
    ReplaceFromDrop(s, mt.len, mt.len, m, f);
  }

  /** A whole-text replace that does not start with a match: the first character, then the rest replaced on its own. */
  lemma ReplaceAllCopies<C>(s: string, m: Matcher<C>, f: C -> string)
    requires Advances(m) && s != [] && m(s).None?
    ensures ReplaceAll(s, m, f) == [s[0]] + ReplaceAll(s[1..], m, f)
  {
    assert s[0..] == s;
    ReplaceCopies(s, 0, m, f);
    ReplaceFromDrop(s, 1, 1, m, f);
  }

  /** A stretch where the pattern matches at no position is copied as it is. */
  lemma {:induction false} CopyUpTo<C>(s: string, lastIndex: nat, index: nat, m: Matcher<C>, f: C -> string)
    requires Advances(m) && lastIndex <= index <= |s|
    requires forall q :: lastIndex <= q < index ==> m(s[q..]).None?
    ensures ReplaceFrom(s, lastIndex, m, f) == s[lastIndex..index] + ReplaceFrom(s, index, m, f)
    decreases index - lastIndex
  {
    if lastIndex < index {
      var next := lastIndex + 1;
      ReplaceCopies(s, lastIndex, m, f);
      CopyUpTo(s, next, index, m, f);
      ConsAssociates(s[lastIndex], s[next..index], ReplaceFrom(s, index, m, f));
      SliceCons(s, lastIndex, next, index);
    }
  }

  /** Putting a character in front of a concatenation. */
  lemma ConsAssociates(c: char, x: string, y: string)
    ensures [c] + (x + y) == ([c] + x) + y
  {
  }

  /** Peeling the first character off a slice. */
  lemma SliceCons(s: string, i: nat, next: nat, j: nat)
    requires i < j <= |s| && next == i + 1
    ensures s[i..j] == [s[i]] + s[next..j]
  {
  }

  /**
   * The one-position-at-a-time reading agrees with the way `replace` is usually
   * described: copy up to the leftmost match `exec` finds, emit the replacement,
   * continue after the match; with no match left, copy the rest.
   */
  lemma ReplaceFromExec<C>(s: string, lastIndex: nat, m: Matcher<C>, f: C -> string)
    requires Advances(m) && lastIndex <= |s|
    ensures ReplaceFrom(s, lastIndex, m, f)
            == match Exec(s, lastIndex, m)
               case None => s[lastIndex..]
               case Some(fd) => s[lastIndex..fd.index] + f(fd.m.captures) + ReplaceFrom(s, fd.End(), m, f)
  {
    match Exec(s, lastIndex, m)
    case None =>
      CopyUpTo(s, lastIndex, |s|, m, f);
    case Some(fd) =>
      CopyUpTo(s, lastIndex, fd.index, m, f);
      assert fd.index < |s|;
      ReplaceAtMatch(s, fd.index, m, f, fd.m, f(fd.m.captures), fd.End());
  }

  /** Text without a match is left as it is. */
  lemma ReplaceNoMatch<C>(s: string, lastIndex: nat, m: Matcher<C>, f: C -> string)
    requires Advances(m) && lastIndex <= |s|
    requires MatchAllFrom(s, lastIndex, m) == []
    ensures ReplaceFrom(s, lastIndex, m, f) == s[lastIndex..]
  {
    CopyUpTo(s, lastIndex, |s|, m, f);
  }

  /**
   * When every replacement is exactly two characters shorter than what it replaces,
   * the result is two characters shorter per match.
   */
  lemma {:induction false} ReplaceLength<C>(s: string, lastIndex: nat, m: Matcher<C>, f: C -> string)
    requires Advances(m) && lastIndex <= |s|
    requires forall t :: m(t).Some? ==> |f(m(t).value.captures)| + 2 == m(t).value.len
    ensures |ReplaceFrom(s, lastIndex, m, f)| + 2 * |MatchAllFrom(s, lastIndex, m)| == |s| - lastIndex
    decreases |s| - lastIndex
  {
    ReplaceFromExec(s, lastIndex, m, f);
    match Exec(s, lastIndex, m)
    case None =>
    case Some(fd) =>
      ReplaceLength(s, fd.End(), m, f);
  }

  /** When every replacement is shorter than what it replaces, each match shortens the text. */
  lemma {:induction false} ReplaceShrinks<C>(s: string, lastIndex: nat, m: Matcher<C>, f: C -> string)
    requires Advances(m) && lastIndex <= |s|
    requires forall t :: m(t).Some? ==> |f(m(t).value.captures)| < m(t).value.len
    ensures |ReplaceFrom(s, lastIndex, m, f)| + |MatchAllFrom(s, lastIndex, m)| <= |s| - lastIndex
    decreases |s| - lastIndex
  {
    ReplaceFromExec(s, lastIndex, m, f);
    match Exec(s, lastIndex, m)
    case None =>
    case Some(fd) => ReplaceShrinks(s, fd.End(), m, f);
  }

  /** A replace that only deletes keeps the rest of the text in order. */
  lemma {:induction false} ReplaceDeletes<C>(s: string, lastIndex: nat, m: Matcher<C>, f: C -> string)
    requires Advances(m) && lastIndex <= |s|
    requires forall t :: m(t).Some? ==> f(m(t).value.captures) == []
    ensures IsSubsequence(ReplaceFrom(s, lastIndex, m, f), s[lastIndex..])
    decreases |s| - lastIndex
  {
    if lastIndex < |s| {
      match m(s[lastIndex..])
      case Some(mt) =>
        var next := lastIndex + mt.len;
        var rest := ReplaceFrom(s, next, m, f);
        ReplaceAtMatch(s, lastIndex, m, f, mt, [], next);
        assert [] + rest == rest;
        ReplaceDeletes(s, next, m, f);
        SliceSplit(s, lastIndex, next);
        SubsequenceSkip(rest, s[lastIndex..next], s[next..]);
      case None =>
        var next := lastIndex + 1;
        ReplaceCopies(s, lastIndex, m, f);
        ReplaceDeletes(s, next, m, f);
        SuffixCons(s, lastIndex, next);
        SubsequenceCons(s[lastIndex], ReplaceFrom(s, next, m, f), s[next..]);
    }
  }

  /** A suffix is the slice up to `j` followed by the rest. */
  lemma SliceSplit(s: string, i: nat, j: nat)
    requires i <= j <= |s|
    ensures s[i..] == s[i..j] + s[j..]
  {
  }

  /** A non-empty suffix is its first character followed by the rest. */
  lemma SuffixCons(s: string, i: nat, next: nat)
    requires i < |s| && next == i + 1
    ensures s[i..] == [s[i]] + s[next..]
  {
  }
}
