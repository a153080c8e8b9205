/**
 * The character-level vocabulary of the ECMAScript string and regular-expression
 * operations the script utilities rely on: the `\s` and `\w` classes, the greedy
 * run of a character class, `String.prototype.trim` and substring search.
 */
module JsText {

  /** The characters `\s` matches (WhiteSpace and LineTerminator); `trim` strips the same set. */
  predicate IsWhitespace(c: char) {
    || c == ' ' || c == '\t' || c == '\n' || c == '\U{000B}' || c == '\U{000C}' || c == '\r'
    || c == '\U{00A0}' || c == '\U{1680}' || ('\U{2000}' <= c <= '\U{200A}')
    || c == '\U{2028}' || c == '\U{2029}' || c == '\U{202F}' || c == '\U{205F}'
    || c == '\U{3000}' || c == '\U{FEFF}'
  }

  /** The characters `\w` matches (no `u` flag): ASCII letters, digits and `_`. */
  predicate IsWordChar(c: char) {
    ('a' <= c <= 'z') || ('A' <= c <= 'Z') || ('0' <= c <= '9') || c == '_'
  }

  /** The character classes the three patterns of the utilities are made of. */
  datatype CharClass =
    | Space          // a literal ` `
    | Whitespace     // `\s`
    | NonWhitespace  // `\S`
    | Word           // `\w`
    | ImportClause   // `[\s\w*{},]`
    | NotNewline     // `[^\n]`

  predicate In(c: char, k: CharClass) {
    match k
    case Space => c == ' '
    case Whitespace => IsWhitespace(c)
    case NonWhitespace => !IsWhitespace(c)
    case Word => IsWordChar(c)
    case ImportClause => IsWhitespace(c) || IsWordChar(c) || c == '*' || c == '{' || c == '}' || c == ','
    case NotNewline => c != '\n'
  }

  predicate AllIn(s: string, k: CharClass) {
    forall j :: 0 <= j < |s| ==> In(s[j], k)
  }

  /** Where a greedy `[k]*` that starts at `i` stops: the longest run of class `k` from `i`. */
  function RunEnd(s: string, i: nat, k: CharClass): (r: nat)
    requires i <= |s|
    ensures i <= r <= |s|
    ensures forall j :: i <= j < r ==> In(s[j], k)
    ensures r == |s| || !In(s[r], k)
    decreases |s| - i
  {
    if i == |s| || !In(s[i], k) then i else RunEnd(s, i + 1, k)
  }

  /** A run is determined by where it starts: any maximal run of `k` from `i` ends where `RunEnd` says. */
  lemma RunEndUnique(s: string, i: nat, k: CharClass, r: nat)
    requires i <= r <= |s|
    requires forall j :: i <= j < r ==> In(s[j], k)
    requires r == |s| || !In(s[r], k)
    ensures RunEnd(s, i, k) == r
  {
  }

  /** The end of `s[..hi]` once its trailing whitespace is dropped. */
  function TrailingWhitespaceStart(s: string, hi: nat): (r: nat)
    requires hi <= |s|
    ensures r <= hi
    ensures forall j :: r <= j < hi ==> IsWhitespace(s[j])
    ensures r == 0 || !IsWhitespace(s[r - 1])
    decreases hi
  {
    if hi == 0 || !IsWhitespace(s[hi - 1]) then hi else TrailingWhitespaceStart(s, hi - 1)
  }

  /** Trailing whitespace is determined by where it ends: any maximal run ending at `hi` starts where `TrailingWhitespaceStart` says. */
  lemma TrailingWhitespaceStartUnique(s: string, hi: nat, r: nat)
    requires r <= hi <= |s|
    requires forall j :: r <= j < hi ==> IsWhitespace(s[j])
    requires r == 0 || !IsWhitespace(s[r - 1])
    ensures TrailingWhitespaceStart(s, hi) == r
  {
  }

  /** `String.prototype.trim`: `s` without its leading and trailing whitespace. */
  function Trim(s: string): (r: string)
    ensures r == [] || (!IsWhitespace(r[0]) && !IsWhitespace(r[|r| - 1]))
    ensures exists i :: 0 <= i <= |s| - |r| && s[i..i + |r|] == r
                        && AllIn(s[..i], Whitespace) && AllIn(s[i + |r|..], Whitespace)
  {
    var lo := RunEnd(s, 0, Whitespace);
    var hi := TrailingWhitespaceStart(s, |s|);
    if hi <= lo then
      assert AllIn(s[..|s|], Whitespace) by {
        forall j | 0 <= j < |s| ensures IsWhitespace(s[j]) {
          if j < hi { assert j < lo; }
        }
      }
      assert s[|s|..] == [] && s[..|s|] == s;
      []
    else
      assert AllIn(s[..lo], Whitespace) && AllIn(s[hi..], Whitespace);
      s[lo..hi]
  }

  /** `trim` removes exactly the surrounding whitespace: it returns the inner text of any padded string. */
  lemma TrimPadded(front: string, inner: string, back: string)
    requires AllIn(front, Whitespace) && AllIn(back, Whitespace)
    requires inner == [] || (!IsWhitespace(inner[0]) && !IsWhitespace(inner[|inner| - 1]))
    ensures Trim(front + inner + back) == inner
  {
    var s := front + inner + back;
    var f, n := |front|, |inner|;
    PaddedChars(front, inner, back, s);
    if n == 0 {
      RunEndUnique(s, 0, Whitespace, |s|);
    } else {
      RunEndUnique(s, 0, Whitespace, f);
      TrailingWhitespaceStartUnique(s, |s|, f + n);
    }
  }

  /** Where each character of a padded string comes from. */
  lemma PaddedChars(front: string, inner: string, back: string, s: string)
    requires AllIn(front, Whitespace) && AllIn(back, Whitespace)
    requires s == front + inner + back
    ensures forall j :: 0 <= j < |front| ==> IsWhitespace(s[j])
    ensures forall j :: |front| + |inner| <= j < |s| ==> IsWhitespace(s[j])
    ensures s[|front|..|front| + |inner|] == inner
  {
    forall j | |front| + |inner| <= j < |s| ensures IsWhitespace(s[j]) {
      assert s[j] == back[j - |front| - |inner|];
    }
  }

  /** `w` occurs somewhere in `t`: what a regex made of the literal `w` tests. */
  predicate Contains(t: string, w: string) {
    exists i :: 0 <= i <= |t| - |w| && OccursAt(t, w, i)
  }

  predicate OccursAt(t: string, w: string, i: nat) {
    i + |w| <= |t| && t[i..i + |w|] == w
  }

  /** The characters of `a` appear in `b`, in the same order. */
  predicate IsSubsequence(a: string, b: string)
    decreases |b|
  {
    || a == []
    || (b != [] && ((a[0] == b[0] && IsSubsequence(a[1..], b[1..])) || IsSubsequence(a, b[1..])))
  }

  /** Text put in front of `b` can only be skipped over. */
  lemma {:induction false} SubsequenceSkip(a: string, p: string, b: string)
    requires IsSubsequence(a, b)
    ensures IsSubsequence(a, p + b)
    decreases |p|
  {
    if p == [] {
      assert p + b == b;
    } else if a != [] {
      SubsequenceSkip(a, p[1..], b);
      assert (p + b)[1..] == p[1..] + b;
    }
  }

  /** A character kept on both sides keeps the embedding. */
  lemma SubsequenceCons(c: char, a: string, b: string)
    requires IsSubsequence(a, b)
    ensures IsSubsequence([c] + a, [c] + b)
  {
    assert ([c] + a)[1..] == a && ([c] + b)[1..] == b;
  }
}
