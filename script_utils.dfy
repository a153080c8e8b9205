/**
 * The text helpers of the examples build tool (examples/scripts/utils.mjs):
 * `parseConfig`, which reads `// @config` directives out of an example script;
 * `engineFor`, which picks the engine build an example loads; `patchScript`,
 * which strips the engine's own import from a script; and the key-unquoting
 * rewrite `objStringify` applies to the output of `JSON.stringify`.
 */
module ScriptUtils {
  import opened Wrappers
  import opened JsText
  import opened JsRegex

  // ------------------------------------------------------------------------
  // parseConfig: /\/\/ @config (\S+)(?:\s+([^\n]+))?/g
  // ------------------------------------------------------------------------

  /** A configuration entry as JavaScript stores it: a boolean or a string. */
  datatype Value = Bool(b: bool) | Str(s: string)

  /** One match of the directive pattern: group 1 (the key) and group 2 (the raw value), when it took part. */
  datatype Directive = Directive(key: string, raw: Option<string>)

  const Marker: string := "// @config "

  /** The directive pattern matches at the start of `t` exactly when the marker is followed by a non-whitespace character. */
  predicate StartsDirective(t: string) {
    |Marker| < |t| && t[..|Marker|] == Marker && !IsWhitespace(t[|Marker|])
  }

  /** `key` is the maximal non-empty run of non-whitespace right after a marker at `p`. */
  predicate KeyAt(s: string, p: nat, key: string) {
    && p + |Marker| + |key| <= |s|
    && s[p..p + |Marker|] == Marker
    && s[p + |Marker|..p + |Marker| + |key|] == key
    && key != [] && AllIn(key, NonWhitespace)
    && (p + |Marker| + |key| == |s| || IsWhitespace(s[p + |Marker| + |key|]))
  }

  /** What follows a key when group 2 cannot match: whitespace whose characters after the first are all line feeds. */
  predicate BareTail(u: string) {
    AllIn(u, Whitespace) && forall j :: 1 <= j < |u| ==> u[j] == '\n'
  }

  /**
   * Group 2 captured `v`, which ends the match at `end`: `v` is non-empty, holds no
   * line feed and runs to the end of its line, and is preceded by at least one
   * whitespace character after the key that ends at `keyEnd`. It starts with a
   * non-whitespace character, unless the whitespace after the key reached the end
   * of the text and `\s+` had to give one character back.
   */
  predicate ValueAt(t: string, keyEnd: nat, v: string, end: nat) {
    && keyEnd + |v| < end <= |t|
    && t[end - |v|..end] == v
    && v != [] && AllIn(v, NotNewline)
    && AllIn(t[keyEnd..end - |v|], Whitespace)
    && (end == |t| || t[end] == '\n')
    && (!IsWhitespace(v[0]) || (|v| == 1 && forall j :: end <= j < |t| ==> t[j] == '\n'))
  }

  /** The last index in `[lo, hi)` that does not hold a line feed. */
  function LastNotNewline(t: string, lo: nat, hi: nat): (r: Option<nat>)
    requires lo <= hi <= |t|
    ensures r.Some? ==> lo <= r.value < hi && t[r.value] != '\n'
                        && forall j :: r.value < j < hi ==> t[j] == '\n'
    ensures r.None? ==> forall j :: lo <= j < hi ==> t[j] == '\n'
    decreases hi - lo
  {
    if hi == lo then None
    else if t[hi - 1] != '\n' then Some(hi - 1)
    else LastNotNewline(t, lo, hi - 1)
  }

  /** Where the key of a directive at the start of `t` ends: `(\S+)` is greedy. */
  function KeyEnd(t: string): (r: nat)
    requires StartsDirective(t)
    ensures |Marker| < r <= |t| && KeyAt(t, 0, t[|Marker|..r])
  {
    var r := RunEnd(t, |Marker|, NonWhitespace);
    assert t[0..|Marker|] == t[..|Marker|];
    assert AllIn(t[|Marker|..r], NonWhitespace);
    r
  }

  /**
   * `(?:\s+([^\n]+))?` tried at `keyEnd`, which holds whitespace or is the end of
   * the text: where the match ends and what group 2 captured. `\s+` is greedy and
   * may cross line feeds; when it runs to the end of the text, `[^\n]+` has
   * nothing to match and `\s+` gives characters back one at a time until
   * `[^\n]+` can take one (it then takes that single character, since the rest
   * are line feeds) or until `\s+` would be empty, when the group is dropped.
   */
  function GroupTwo(t: string, keyEnd: nat): (r: (nat, Option<string>))
    requires keyEnd <= |t| && (keyEnd == |t| || IsWhitespace(t[keyEnd]))
    ensures r.1.None? ==> r.0 == keyEnd && BareTail(t[keyEnd..])
    ensures r.1.Some? ==> ValueAt(t, keyEnd, r.1.value, r.0)
  {
    var gapEnd := RunEnd(t, keyEnd, Whitespace);
    if gapEnd < |t| then
      var lineEnd := RunEnd(t, gapEnd, NotNewline);
      assert AllIn(t[gapEnd..lineEnd], NotNewline);
      assert AllIn(t[keyEnd..gapEnd], Whitespace);
      (lineEnd, Some(t[gapEnd..lineEnd]))
    else if gapEnd == keyEnd then
      (keyEnd, None)
    else
      GiveBack(t, keyEnd)
  }

  /** The give-back case of `GroupTwo`: only whitespace follows the key, up to the end of the text. */
  function GiveBack(t: string, keyEnd: nat): (r: (nat, Option<string>))
    requires keyEnd < |t| && AllIn(t[keyEnd..], Whitespace)
    ensures r.1.None? ==> r.0 == keyEnd && BareTail(t[keyEnd..])
    ensures r.1.Some? ==> ValueAt(t, keyEnd, r.1.value, r.0)
  {
    match LastNotNewline(t, keyEnd + 1, |t|)
    case Some(j) =>
      assert AllIn(t[keyEnd..j], Whitespace);
      (j + 1, Some(t[j..j + 1]))
    case None =>
      (keyEnd, None)
  }

  /** The last character that is not a line feed is where `LastNotNewline` finds it. */
  lemma LastNotNewlineIs(t: string, lo: nat, hi: nat, j: nat)
    requires lo <= j < hi <= |t| && t[j] != '\n'
    requires forall i :: j < i < hi ==> t[i] == '\n'
    ensures LastNotNewline(t, lo, hi) == Some(j)
    decreases hi
  {
  }

  /** The directive pattern tried at the start of `t`. */
  function ConfigMatcher(t: string): (r: Option<Match<Directive>>)
    ensures r.Some? <==> StartsDirective(t)
    ensures r.Some? ==> 0 < r.value.len <= |t| && KeyAt(t, 0, r.value.captures.key)
    ensures r.Some? && r.value.captures.raw.None? ==>
              r.value.len == |Marker| + |r.value.captures.key| && BareTail(t[r.value.len..])
    ensures r.Some? && r.value.captures.raw.Some? ==>
              ValueAt(t, |Marker| + |r.value.captures.key|, r.value.captures.raw.value, r.value.len)
  {
    if !StartsDirective(t) then None
    else
      var keyEnd := KeyEnd(t);
      var g := GroupTwo(t, keyEnd);
      Some(Match(g.0, Directive(t[|Marker|..keyEnd], g.1)))
  }

  /** Every directive match consumes at least one character. */
  lemma ConfigMatcherAdvances()
    ensures Advances(ConfigMatcher)
  {
    forall t | ConfigMatcher(t).Some? ensures 0 < ConfigMatcher(t).value.len <= |t| { }
  }

  /** A maximal run of class `k`, stated on a slice, is where `RunEnd` stops. */
  lemma RunEndSlice(t: string, i: nat, k: CharClass, r: nat)
    requires i <= r <= |t| && AllIn(t[i..r], k) && (r == |t| || !In(t[r], k))
    ensures RunEnd(t, i, k) == r
  {
    forall j | i <= j < r ensures In(t[j], k) {
      assert t[i..r][j - i] == t[j];
    }
    RunEndUnique(t, i, k, r);
  }

  /** The pieces a text is built from are its slices. */
  lemma Pieces(a: string, b: string, c: string, t: string)
    requires t == a + b + c
    ensures t[..|a|] == a && t[|a|..|a| + |b|] == b && t[|a| + |b|..] == c
  {
  }

  /** The directive pattern at the start of `t` takes the key that ends at `keyEnd`. */
  lemma KeyEndIs(t: string, keyEnd: nat)
    requires |Marker| < keyEnd <= |t| && t[..|Marker|] == Marker
    requires AllIn(t[|Marker|..keyEnd], NonWhitespace)
    requires keyEnd == |t| || IsWhitespace(t[keyEnd])
    ensures StartsDirective(t) && KeyEnd(t) == keyEnd
  {
    assert t[|Marker|] == t[|Marker|..keyEnd][0];
    RunEndSlice(t, |Marker|, NonWhitespace, keyEnd);
  }

  /** The directive pattern's match, assembled from where the key ends and what group 2 did. */
  lemma ConfigMatcherIs(t: string, keyEnd: nat, len: nat, raw: Option<string>)
    requires StartsDirective(t) && KeyEnd(t) == keyEnd && GroupTwo(t, keyEnd) == (len, raw)
    ensures ConfigMatcher(t) == Some(Match(len, Directive(t[|Marker|..keyEnd], raw)))
  {
  }

  /** Group 2 takes the rest of the line that starts where the whitespace after the key ends. */
  lemma GroupTwoLine(t: string, keyEnd: nat, gapEnd: nat, lineEnd: nat)
    requires keyEnd < gapEnd < lineEnd <= |t|
    requires AllIn(t[keyEnd..gapEnd], Whitespace) && !IsWhitespace(t[gapEnd])
    requires AllIn(t[gapEnd..lineEnd], NotNewline) && (lineEnd == |t| || t[lineEnd] == '\n')
    ensures GroupTwo(t, keyEnd) == (lineEnd, Some(t[gapEnd..lineEnd]))
  {
    assert t[keyEnd] == t[keyEnd..gapEnd][0];
    RunEndSlice(t, keyEnd, Whitespace, gapEnd);
    RunEndSlice(t, gapEnd, NotNewline, lineEnd);
  }

  /** A marker, a key, then whitespace or the end of the text: the pattern takes that key. */
  lemma KeyFollowedBy(key: string, after: string, t: string)
    requires key != [] && AllIn(key, NonWhitespace)
    requires after == [] || IsWhitespace(after[0])
    requires t == Marker + key + after
    ensures StartsDirective(t) && KeyEnd(t) == |Marker| + |key| && t[|Marker|..|Marker| + |key|] == key
  {
    var keyEnd := |Marker| + |key|;
    Pieces(Marker, key, after, t);
    assert keyEnd < |t| ==> t[keyEnd] == after[0];
    KeyEndIs(t, keyEnd);
  }

  /** The key part of `ConfigMatcherValue`. */
  lemma ValueLineKey(key: string, gap: string, v: string, rest: string, t: string)
    requires key != [] && AllIn(key, NonWhitespace)
    requires gap != [] && AllIn(gap, Whitespace)
    requires t == Marker + key + gap + v + rest
    ensures StartsDirective(t) && KeyEnd(t) == |Marker| + |key| && t[|Marker|..|Marker| + |key|] == key
  {
    var keyEnd := |Marker| + |key|;
    Pieces(Marker, key, gap + v + rest, t);
    assert t[keyEnd] == gap[0];
    KeyEndIs(t, keyEnd);
  }

  /** The group 2 part of `ConfigMatcherValue`. */
  lemma ValueLineGroup(head: string, gap: string, v: string, rest: string, t: string)
    requires gap != [] && AllIn(gap, Whitespace)
    requires v != [] && !IsWhitespace(v[0]) && AllIn(v, NotNewline)
    requires rest == [] || rest[0] == '\n'
    requires t == head + gap + v + rest
    ensures GroupTwo(t, |head|) == (|head| + |gap| + |v|, Some(v))
  {
    ValueLinePieces(head, gap, v, rest, t);
    GroupTwoLine(t, |head|, |head| + |gap|, |head| + |gap| + |v|);
  }

  /** Where the gap and the value line of `head + gap + v + rest` sit, and what bounds them. */
  lemma ValueLinePieces(head: string, gap: string, v: string, rest: string, t: string)
    requires gap != [] && AllIn(gap, Whitespace)
    requires v != [] && !IsWhitespace(v[0]) && AllIn(v, NotNewline)
    requires rest == [] || rest[0] == '\n'
    requires t == head + gap + v + rest
    ensures AllIn(t[|head|..|head| + |gap|], Whitespace) && !IsWhitespace(t[|head| + |gap|])
    ensures AllIn(t[|head| + |gap|..|head| + |gap| + |v|], NotNewline)
    ensures |head| + |gap| + |v| == |t| || t[|head| + |gap| + |v|] == '\n'
  {
    Pieces(head + gap, v, rest, t);
    Pieces(head, gap, v + rest, t);
    assert t[|head| + |gap|] == v[0];
  }

  /** A key followed by whitespace and a line: the value is the line, wherever the line starts. */
  lemma ConfigMatcherValue(key: string, gap: string, v: string, rest: string)
    requires key != [] && AllIn(key, NonWhitespace)
    requires gap != [] && AllIn(gap, Whitespace)
    requires v != [] && !IsWhitespace(v[0]) && AllIn(v, NotNewline)
    requires rest == [] || rest[0] == '\n'
    ensures ConfigMatcher(Marker + key + gap + v + rest)
            == Some(Match(|Marker| + |key| + |gap| + |v|, Directive(key, Some(v))))
  {
    var head := Marker + key;
    var t := head + gap + v + rest;
    ValueLineKey(key, gap, v, rest, t);
    ValueLineGroup(head, gap, v, rest, t);
    ConfigMatcherIs(t, |head|, |head| + |gap| + |v|, Some(v));
  }

  /** Only whitespace after the key, and no character to give back: no value. */
  lemma GroupTwoBare(t: string, keyEnd: nat)
    requires keyEnd <= |t| && BareTail(t[keyEnd..])
    ensures GroupTwo(t, keyEnd) == (keyEnd, None)
  {
    RunEndSlice(t, keyEnd, Whitespace, |t|);
    if keyEnd < |t| {
      forall i | keyEnd + 1 <= i < |t| ensures t[i] == '\n' {
        assert t[keyEnd..][i - keyEnd] == t[i];
      }
    }
  }

  /** A key followed only by a bare tail (or nothing) has no value. */
  lemma ConfigMatcherBare(key: string, tail: string)
    requires key != [] && AllIn(key, NonWhitespace) && BareTail(tail)
    ensures ConfigMatcher(Marker + key + tail) == Some(Match(|Marker| + |key|, Directive(key, None)))
  {
    var t := Marker + key + tail;
    var keyEnd := |Marker| + |key|;
    KeyFollowedBy(key, tail, t);
    assert t[keyEnd..] == tail;
    GroupTwoBare(t, keyEnd);
    ConfigMatcherIs(t, keyEnd, keyEnd, None);
  }

  /** Only whitespace after the key, with a character other than a line feed to give back. */
  lemma GroupTwoGiveBack(t: string, keyEnd: nat, j: nat)
    requires keyEnd < j < |t| && AllIn(t[keyEnd..], Whitespace) && t[j] != '\n'
    requires forall i :: j < i < |t| ==> t[i] == '\n'
    ensures GroupTwo(t, keyEnd) == (j + 1, Some([t[j]]))
  {
    RunEndSlice(t, keyEnd, Whitespace, |t|);
    LastNotNewlineIs(t, keyEnd + 1, |t|, j);
    assert t[j..j + 1] == [t[j]];
  }

  /** The group 2 part of `ConfigMatcherBlankTail`. */
  lemma BlankTailGroup(head: string, tail: string, j: nat, t: string)
    requires AllIn(tail, Whitespace)
    requires 1 <= j < |tail| && tail[j] != '\n'
    requires forall i :: j < i < |tail| ==> tail[i] == '\n'
    requires t == head + tail
    ensures GroupTwo(t, |head|) == (|head| + j + 1, Some([tail[j]]))
  {
    var keyEnd := |head|;
    assert t[keyEnd..] == tail;
    assert t[keyEnd + j] == tail[j];
    forall i | keyEnd + j < i < |t| ensures t[i] == '\n' {
      assert t[i] == tail[i - keyEnd];
    }
    GroupTwoGiveBack(t, keyEnd, keyEnd + j);
  }

  /**
   * A key followed only by whitespace that reaches the end of the text and holds a
   * character other than a line feed after its first: `\s+` gives back down to the
   * last such character, which becomes the value.
   */
  lemma ConfigMatcherBlankTail(key: string, tail: string, j: nat)
    requires key != [] && AllIn(key, NonWhitespace) && AllIn(tail, Whitespace)
    requires 1 <= j < |tail| && tail[j] != '\n'
    requires forall i :: j < i < |tail| ==> tail[i] == '\n'
    ensures ConfigMatcher(Marker + key + tail)
            == Some(Match(|Marker| + |key| + j + 1, Directive(key, Some([tail[j]]))))
  {
    var head := Marker + key;
    var t := head + tail;
    KeyFollowedBy(key, tail, t);
    BlankTailGroup(head, tail, j, t);
    ConfigMatcherIs(t, |head|, |head| + j + 1, Some([tail[j]]));
  }

  /**
   * How a directive's value is stored: no value means `true`; a trimmed value that
   * contains `true` or `false` anywhere becomes the boolean "is it exactly `true`";
   * any other trimmed value is stored as the string.
   */
  function Interpret(raw: Option<string>): (v: Value)
    ensures v == Bool(true) <==> raw.None? || Trim(raw.value) == "true"
    ensures v.Str? ==> raw.Some? && v.s == Trim(raw.value)
                       && !Contains(v.s, "true") && !Contains(v.s, "false")
    ensures raw.Some? && !Contains(Trim(raw.value), "true") && !Contains(Trim(raw.value), "false")
            ==> v == Str(Trim(raw.value))
    ensures raw.Some? && (Contains(Trim(raw.value), "true") || Contains(Trim(raw.value), "false"))
            ==> v == Bool(Trim(raw.value) == "true")
  {
    match raw
    case None => Bool(true)
    case Some(s) =>
      var val := Trim(s);
      assert val == "true" ==> OccursAt(val, "true", 0);
      if Contains(val, "true") || Contains(val, "false") then Bool(val == "true") else Str(val)
  }

  /** The entries the directives `found` leave in `config`, applied in order. */
  function Apply(found: seq<Found<Directive>>, config: map<string, Value>): (r: map<string, Value>)
    ensures forall k :: k in r <==>
              k in config || exists i :: 0 <= i < |found| && found[i].m.captures.key == k
    decreases |found|
  {
    if found == [] then config
    else
      var d := found[0].m.captures;
      var r := Apply(found[1..], config[d.key := Interpret(d.raw)]);
      assert forall i :: 0 <= i < |found| - 1 ==> found[1..][i] == found[i + 1];
      r
  }

  /** The directives `parseConfig`'s loop visits, in order. */
  function Scan(script: string): seq<Found<Directive>> {
    ConfigMatcherAdvances();
    MatchAllFrom(script, 0, ConfigMatcher)
  }

  /** The configuration `parseConfig` returns. */
  function ConfigOf(script: string): map<string, Value> {
    Apply(Scan(script), map[])
  }

  /** `match[1].trim()` is the key itself: a key is a run of non-whitespace. */
  lemma TrimKey(t: string, key: string)
    requires KeyAt(t, 0, key)
    ensures Trim(key) == key
  {
    assert [] + key + [] == key;
    TrimPadded([], key, []);
  }

  /**
   * One turn of `parseConfig`'s loop: storing the next directive found from
   * `lastIndex`, under its trimmed key, leaves the same directives still to apply.
   */
  lemma ParseStep(script: string, lastIndex: nat, config: map<string, Value>)
    requires lastIndex <= |script| && Advances(ConfigMatcher)
    requires Exec(script, lastIndex, ConfigMatcher).Some?
    ensures var f := Exec(script, lastIndex, ConfigMatcher).value;
            var d := f.m.captures;
            Apply(MatchAllFrom(script, lastIndex, ConfigMatcher), config)
            == Apply(MatchAllFrom(script, f.End(), ConfigMatcher), config[Trim(d.key) := Interpret(d.raw)])
  {
    var f := Exec(script, lastIndex, ConfigMatcher).value;
    var d := f.m.captures;
    var rest := MatchAllFrom(script, f.End(), ConfigMatcher);
    assert MatchAllFrom(script, lastIndex, ConfigMatcher) == [f] + rest;
    ApplyCons(f, rest, config);
    // the key is a run of non-whitespace, so trimming keeps it whole
    TrimKey(script[f.index..], d.key);
  }

  /** Applying a list of directives applies its first one, then the rest. */
  lemma ApplyCons(f: Found<Directive>, rest: seq<Found<Directive>>, config: map<string, Value>)
    ensures Apply([f] + rest, config) == Apply(rest, config[f.m.captures.key := Interpret(f.m.captures.raw)])
  {
    assert ([f] + rest)[1..] == rest;
  }

  /**
   * `parseConfig`: run the global directive regex over the script until `exec`
   * fails, storing each directive's value under its trimmed key.
   */
  method ParseConfig(script: string) returns (config: map<string, Value>)
    ensures config == ConfigOf(script)
  {
    ConfigMatcherAdvances();
    config := map[];
    var lastIndex := 0;
    while true
      invariant lastIndex <= |script|
      invariant Apply(MatchAllFrom(script, lastIndex, ConfigMatcher), config) == ConfigOf(script)
      decreases |script| - lastIndex
    {
      var found := Exec(script, lastIndex, ConfigMatcher);
      if found.None? {
        break;
      }
      ParseStep(script, lastIndex, config);
      var d := found.value.m.captures;
      config := config[Trim(d.key) := Interpret(d.raw)];
      lastIndex := found.value.End();
    }
  }

  /** Entries for keys no directive mentions keep their value. */
  lemma {:induction false} ApplyKeeps(found: seq<Found<Directive>>, config: map<string, Value>, k: string)
    requires k in config
    requires forall j :: 0 <= j < |found| ==> found[j].m.captures.key != k
    ensures k in Apply(found, config) && Apply(found, config)[k] == config[k]
    decreases |found|
  {
    if found != [] {
      var d := found[0].m.captures;
      ApplyKeeps(found[1..], config[d.key := Interpret(d.raw)], k);
    }
  }

  /** A key's entry comes from the last directive that names it. */
  lemma {:induction false} ApplyLastWins(found: seq<Found<Directive>>, config: map<string, Value>, i: nat)
    requires i < |found|
    requires forall j :: i < j < |found| ==> found[j].m.captures.key != found[i].m.captures.key
    ensures found[i].m.captures.key in Apply(found, config)
    ensures Apply(found, config)[found[i].m.captures.key] == Interpret(found[i].m.captures.raw)
    decreases |found|
  {
    var d := found[0].m.captures;
    if i == 0 {
      ApplyKeeps(found[1..], config[d.key := Interpret(d.raw)], d.key);
    } else {
      ApplyLastWins(found[1..], config[d.key := Interpret(d.raw)], i - 1);
    }
  }

  /** A key found at the start of a suffix is a key found at the suffix's position. */
  lemma KeyAtShift(s: string, p: nat, key: string)
    requires p <= |s| && KeyAt(s[p..], 0, key)
    ensures KeyAt(s, p, key)
  {
    var t := s[p..];
    assert t[..|Marker|] == s[p..p + |Marker|];
    assert t[|Marker|..|Marker| + |key|] == s[p + |Marker|..p + |Marker| + |key|];
  }

  /** Every key of the configuration is the key of a directive right after a `// @config ` marker. */
  lemma ConfigKeysFollowMarkers(script: string, k: string)
    requires k in ConfigOf(script)
    ensures exists p :: KeyAt(script, p, k)
  {
    var found := Scan(script);
    assert k in Apply(found, map[]);
    var i :| 0 <= i < |found| && found[i].m.captures.key == k;
    var p := found[i].index;
    assert KeyAt(script[p..], 0, k);
    KeyAtShift(script, p, k);
  }

  /** The configuration is empty exactly when no `// @config ` marker is followed by a non-whitespace character. */
  lemma ConfigEmptyIff(script: string)
    ensures ConfigOf(script) == map[] <==> forall p :: 0 <= p <= |script| ==> !StartsDirective(script[p..])
  {
    var found := Scan(script);
    if found != [] {
      assert found[0].m.captures.key in ConfigOf(script);
    }
  }

  /** The directives of a script the directive pattern matches in full: just that one. */
  lemma ScanSingle(script: string, d: Directive)
    requires ConfigMatcher(script) == Some(Match(|script|, d))
    ensures Scan(script) == [Found(0, Match(|script|, d))]
  {
    ConfigMatcherAdvances();
    var f := Found(0, Match(|script|, d));
    assert script[0..] == script;
    assert Exec(script, 0, ConfigMatcher) == Some(f);
    assert MatchAllFrom(script, |script|, ConfigMatcher) == [];
  }

  /** One directive applied to an empty configuration. */
  lemma ApplySingle(f: Found<Directive>)
    ensures Apply([f], map[]) == map[f.m.captures.key := Interpret(f.m.captures.raw)]
  {
    assert [f][1..] == [];
  }

  /** A script the directive pattern matches in full holds that one entry. */
  lemma ConfigOfSingle(script: string, d: Directive)
    requires ConfigMatcher(script) == Some(Match(|script|, d))
    ensures ConfigOf(script) == map[d.key := Interpret(d.raw)]
  {
    ScanSingle(script, d);
    ApplySingle(Found(0, Match(|script|, d)));
  }

  /** A script that is one directive without a value sets its key to `true`. */
  lemma ConfigOfBare(key: string)
    requires key != [] && AllIn(key, NonWhitespace)
    ensures ConfigOf(Marker + key) == map[key := Bool(true)]
  {
    var s := Marker + key;
    assert s == Marker + key + [];
    ConfigMatcherBare(key, []);
    ConfigOfSingle(s, Directive(key, None));
  }

  /** A script that is one directive with a value stores that value under its key. */
  lemma ConfigOfValue(key: string, v: string)
    requires key != [] && AllIn(key, NonWhitespace)
    requires v != [] && !IsWhitespace(v[0]) && AllIn(v, NotNewline)
    ensures ConfigOf(Marker + key + " " + v) == map[key := Interpret(Some(v))]
  {
    var s := Marker + key + " " + v;
    var d := Directive(key, Some(v));
    assert ConfigMatcher(s) == Some(Match(|s|, d)) by {
      assert s == Marker + key + " " + v + [];
      ConfigMatcherValue(key, " ", v, []);
    }
    ConfigOfSingle(s, d);
  }

  /** When a key occurs in several visited directives, the last one decides its value. */
  lemma ConfigLastWins(script: string, i: nat)
    requires i < |Scan(script)|
    requires forall j :: i < j < |Scan(script)| ==> Scan(script)[j].m.captures.key != Scan(script)[i].m.captures.key
    ensures Scan(script)[i].m.captures.key in ConfigOf(script)
    ensures ConfigOf(script)[Scan(script)[i].m.captures.key] == Interpret(Scan(script)[i].m.captures.raw)
  {
    ApplyLastWins(Scan(script), map[], i);
  }

  // ------------------------------------------------------------------------
  // engineFor
  // ------------------------------------------------------------------------

  const DevelopmentEngine: string := "./ENGINE_PATH/index.js"
  const PerformanceEngine: string := "./playcanvas.prf.mjs"
  const DebugEngine: string := "./playcanvas.dbg.mjs"
  const DefaultEngine: string := "./playcanvas.mjs"

  /**
   * The engine build for an example's `ENGINE` entry (absent, or whatever value the
   * directive parser stored): the three named builds by strict string equality,
   * the default build for anything else.
   */
  function EngineFor(engine: Option<Value>): (path: string)
    ensures path in {DevelopmentEngine, PerformanceEngine, DebugEngine, DefaultEngine}
    ensures path == DevelopmentEngine <==> engine == Some(Str("development"))
    ensures path == PerformanceEngine <==> engine == Some(Str("performance"))
    ensures path == DebugEngine <==> engine == Some(Str("debug"))
  {
    if engine == Some(Str("development")) then DevelopmentEngine
    else if engine == Some(Str("performance")) then PerformanceEngine
    else if engine == Some(Str("debug")) then DebugEngine
    else DefaultEngine
  }

  // ------------------------------------------------------------------------
  // patchScript: / *import[\s\w*{},]+["']playcanvas["'] *;?\s*/g  ->  ''
  // ------------------------------------------------------------------------

  /** The keyword an import statement starts with. */
  const ImportWord: string := "import"

  const EngineModule: string := "playcanvas"

  /** Where the closing quote of `["']playcanvas["']` sits, counted from the opening one. */
  const CloseQuote: nat := |EngineModule| + 1

  /** The length of `["']playcanvas["']`: the module name and its two quotes. */
  const SpecifierLen: nat := |EngineModule| + 2

  predicate IsQuote(c: char) {
    c == '"' || c == '\''
  }

  /** `["']playcanvas["']` at `b`; the two quotes need not agree. */
  predicate SpecifierAt(t: string, b: nat) {
    b + SpecifierLen <= |t| && IsQuote(t[b]) && t[b + 1..b + CloseQuote] == EngineModule && IsQuote(t[b + CloseQuote])
  }

  /**
   * ` *import[\s\w*{},]+["']playcanvas["']` fills `t[..b + SpecifierLen]`: spaces up to `a`,
   * the word `import`, a non-empty import clause up to `b`, the quoted module name.
   */
  predicate ImportStatement(t: string, a: nat, b: nat) {
    && a + |ImportWord| < b && b + SpecifierLen <= |t|
    && AllIn(t[..a], Space)
    && t[a..a + |ImportWord|] == ImportWord
    && AllIn(t[a + |ImportWord|..b], ImportClause)
    && SpecifierAt(t, b)
  }

  /**
   * ` *;?\s*`: whitespace, except for at most one semicolon, which only spaces
   * may precede.
   */
  predicate Trailer(u: string) {
    forall j :: 0 <= j < |u| ==> IsWhitespace(u[j]) || (u[j] == ';' && AllIn(u[..j], Space))
  }

  /**
   * Where ` *import[\s\w*{},]+` stops at the start of `t`, when a quoted engine
   * module follows. Every quantifier is greedy and the next character of the
   * pattern is never in the class before it, so nothing is ever given back.
   */
  function ImportHead(t: string): (r: Option<(nat, nat)>)
    ensures r.Some? ==> ImportStatement(t, r.value.0, r.value.1)
  {
    var a := RunEnd(t, 0, Space);
    if !(a + |ImportWord| <= |t| && t[a..a + |ImportWord|] == ImportWord) then None
    else
      var b := RunEnd(t, a + |ImportWord|, ImportClause);
      if b == a + |ImportWord| || !SpecifierAt(t, b) then None
      else
        assert AllIn(t[..a], Space) && AllIn(t[a + |ImportWord|..b], ImportClause);
        Some((a, b))
  }

  /** Where the greedy ` *;?\s*` that starts at `c0` stops. */
  function TrailerEnd(t: string, c0: nat): (e: nat)
    requires c0 <= |t|
    ensures c0 <= e <= |t| && Trailer(t[c0..e])
    ensures e == |t| || !IsWhitespace(t[e])
    ensures e < |t| ==> !(t[e] == ';' && AllIn(t[c0..e], Space))
  {
    var c := RunEnd(t, c0, Space);
    var d := if c < |t| && t[c] == ';' then c + 1 else c;
    var e := RunEnd(t, d, Whitespace);
    var u := t[c0..e];
    assert forall j :: 0 <= j < |u| ==> u[j] == t[c0 + j];
    assert AllIn(u[..c - c0], Space);
    e
  }

  /** The import pattern tried at the start of `t`; it captures nothing. */
  function ImportMatcher(t: string): (r: Option<Match<()>>)
    ensures r.Some? ==> 0 < r.value.len <= |t|
  {
    match ImportHead(t)
    case None => None
    case Some((a, b)) => Some(Match(TrailerEnd(t, b + SpecifierLen), ()))
  }

  /**
   * Every match of the import pattern is an engine import statement followed by
   * its trailer, which stops at non-whitespace and never before a semicolon that
   * only spaces precede.
   */
  lemma ImportMatcherSound(t: string)
    requires ImportMatcher(t).Some?
    ensures var len := ImportMatcher(t).value.len;
            exists a: nat, b: nat :: ImportStatement(t, a, b) && b + SpecifierLen <= len
                                     && Trailer(t[b + SpecifierLen..len])
                                     && (len < |t| ==> !(t[len] == ';' && AllIn(t[b + SpecifierLen..len], Space)))
    ensures var len := ImportMatcher(t).value.len;
            len == |t| || !IsWhitespace(t[len])
  {
    var (a, b) := ImportHead(t).value;
    assert ImportStatement(t, a, b);
  }

  /** Every engine import statement at the start of `t` is matched, with the whole trailer after it. */
  lemma ImportMatcherFinds(t: string, a: nat, b: nat)
    requires ImportStatement(t, a, b)
    ensures ImportMatcher(t) == Some(Match(TrailerEnd(t, b + SpecifierLen), ()))
  {
    ImportHeadFinds(t, a, b);
    ImportMatcherAfterHead(t, a, b);
  }

  /** Once ` *import[\s\w*{},]+["']playcanvas["']` is recognised, the match runs on to the end of the trailer. */
  lemma ImportMatcherAfterHead(t: string, a: nat, b: nat)
    requires ImportHead(t) == Some((a, b))
    ensures b + SpecifierLen <= |t|
    ensures ImportMatcher(t) == Some(Match(TrailerEnd(t, b + SpecifierLen), ()))
  {
  }

  /** The spaces, `import` and clause of an engine import statement are where `ImportHead` stops. */
  lemma ImportHeadFinds(t: string, a: nat, b: nat)
    requires ImportStatement(t, a, b)
    ensures ImportHead(t) == Some((a, b))
  {
    ImportSpacesEnd(t, a, b);
    ImportClauseEnd(t, a, b);
  }

  /** The leading spaces of an engine import statement end at `import`. */
  lemma ImportSpacesEnd(t: string, a: nat, b: nat)
    requires ImportStatement(t, a, b)
    ensures RunEnd(t, 0, Space) == a
  {
    assert t[a] == t[a..a + |ImportWord|][0];
    RunEndSlice(t, 0, Space, a);
  }

  /** The import clause of an engine import statement ends at the quote. */
  lemma ImportClauseEnd(t: string, a: nat, b: nat)
    requires ImportStatement(t, a, b)
    ensures RunEnd(t, a + |ImportWord|, ImportClause) == b
  {
    RunEndSlice(t, a + |ImportWord|, ImportClause, b);
  }

  /** Every match of the pattern consumes at least one character and stays inside the text. */
  lemma ImportMatcherAdvances()
    ensures Advances(ImportMatcher)
  {
  }

  function Erase(u: ()): string {
    []
  }

  /** The engine imports `patchScript` deletes, in order. */
  function EngineImports(script: string): seq<Found<()>> {
    ImportMatcherAdvances();
    MatchAllFrom(script, 0, ImportMatcher)
  }

  /** `patchScript`: delete every engine import, with its surrounding spaces, semicolon and following whitespace. */
  function PatchScript(script: string): string {
    ImportMatcherAdvances();
    ReplaceAll(script, ImportMatcher, Erase)
  }

  /** Each deleted import shortens the script; the script is returned unchanged exactly when there is none. */
  lemma PatchScriptShrinks(script: string)
    ensures |PatchScript(script)| + |EngineImports(script)| <= |script|
    ensures PatchScript(script) == script <==> EngineImports(script) == []
  {
    ImportMatcherAdvances();
    ReplaceShrinks(script, 0, ImportMatcher, Erase);
    if EngineImports(script) == [] {
      ReplaceNoMatch(script, 0, ImportMatcher, Erase);
    }
  }

  /** `patchScript` only deletes: what is left is the rest of the script, in order. */
  lemma PatchScriptKeepsOrder(script: string)
    ensures IsSubsequence(PatchScript(script), script)
  {
    ImportMatcherAdvances();
    ReplaceDeletes(script, 0, ImportMatcher, Erase);
  }

  /** A semicolon and the whitespace after it, up to `e`, make the whole trailer. */
  lemma TrailerSemicolon(t: string, c0: nat, e: nat)
    requires c0 < e <= |t| && t[c0] == ';'
    requires AllIn(t[c0 + 1..e], Whitespace) && (e == |t| || !IsWhitespace(t[e]))
    ensures TrailerEnd(t, c0) == e
  {
    assert RunEnd(t, c0, Space) == c0;
    RunEndSlice(t, c0 + 1, Whitespace, e);
  }

  /** An engine import statement stays one when more text follows it. */
  lemma ImportStatementPrefix(head: string, t: string, a: nat, b: nat)
    requires ImportStatement(head, a, b) && |head| <= |t| && t[..|head|] == head
    ensures ImportStatement(t, a, b)
  {
    var h := |head|;
    SlicePrefix(t, h, 0, a);
    SlicePrefix(t, h, a, a + |ImportWord|);
    SlicePrefix(t, h, a + |ImportWord|, b);
    SlicePrefix(t, h, b + 1, b + CloseQuote);
    assert t[..a] == t[0..a];
  }

  /** A slice that lies inside a prefix is the same slice of the prefix. */
  lemma SlicePrefix(t: string, h: nat, i: nat, j: nat)
    requires i <= j <= h <= |t|
    ensures t[..h][i..j] == t[i..j]
  {
  }

  /** The quoted engine module after any text is at the end of that text. */
  lemma SpecifierAfter(x: string, q1: char, q2: char)
    requires IsQuote(q1) && IsQuote(q2)
    ensures SpecifierAt(x + [q1] + EngineModule + [q2], |x|)
  {
    var t := x + [q1] + EngineModule + [q2];
    assert t[|x| + 1..|x| + CloseQuote] == EngineModule;
  }

  /** `spaces import clause 'playcanvas'` is an engine import statement. */
  lemma ImportStatementOf(spaces: string, clause: string, q1: char, q2: char)
    requires AllIn(spaces, Space) && clause != [] && AllIn(clause, ImportClause)
    requires IsQuote(q1) && IsQuote(q2)
    ensures var x := spaces + ImportWord + clause;
            ImportStatement(x + [q1] + EngineModule + [q2], |spaces|, |x|)
  {
    var x := spaces + ImportWord + clause;
    var t := x + [q1] + EngineModule + [q2];
    var a := |spaces|;
    SpecifierAfter(x, q1, q2);
    assert t[..|x|] == x;
    Pieces(spaces, ImportWord, clause, x);
    assert t[..a] == spaces;
    assert t[a..a + |ImportWord|] == ImportWord;
    assert t[a + |ImportWord|..|x|] == clause;
  }

  /** The first characters of `t` are `p` followed by `c`. */
  lemma PrefixThen(p: string, c: char, t: string)
    requires |p| < |t| && t[..|p| + 1] == p + [c]
    ensures t[..|p|] == p && t[|p|] == c
  {
    assert t[..|p|] == t[..|p| + 1][..|p|];
    assert t[|p|] == t[..|p| + 1][|p|];
  }

  /** The import pattern takes an engine import statement, its semicolon and the whitespace after it. */
  lemma ImportLineMatch(head: string, a: nat, b: nat, ws: string, rest: string, t: string)
    requires ImportStatement(head, a, b) && |head| == b + SpecifierLen
    requires AllIn(ws, Whitespace) && (rest == [] || !IsWhitespace(rest[0]))
    requires t == head + ";" + ws + rest
    ensures ImportMatcher(t) == Some(Match(TrailerEnd(t, b + SpecifierLen), ()))
    ensures TrailerEnd(t, b + SpecifierLen) == b + SpecifierLen + 1 + |ws|
  {
    var c0 := b + SpecifierLen;
    var e := b + SpecifierLen + 1 + |ws|;
    assert ImportStatement(t, a, b) && t[c0] == ';' by {
      Pieces(head + ";", ws, rest, t);
      PrefixThen(head, ';', t);
      ImportStatementPrefix(head, t, a, b);
    }
    assert AllIn(t[c0 + 1..e], Whitespace) && (e == |t| || !IsWhitespace(t[e])) by {
      Pieces(head + ";", ws, rest, t);
      assert e < |t| ==> t[e] == rest[0];
    }
    TrailerSemicolon(t, c0, e);
    ImportMatcherFinds(t, a, b);
  }

  /**
   * An engine import statement with its semicolon and the whitespace after it is
   * deleted whole, and the rest of the script is patched as if it stood alone.
   */
  lemma PatchScriptDropsImport(head: string, a: nat, b: nat, ws: string, rest: string)
    requires ImportStatement(head, a, b) && |head| == b + SpecifierLen
    requires AllIn(ws, Whitespace) && (rest == [] || !IsWhitespace(rest[0]))
    ensures PatchScript(head + ";" + ws + rest) == PatchScript(rest)
  {
    var t := head + ";" + ws + rest;
    ImportLineMatch(head, a, b, ws, rest, t);
    var e := TrailerEnd(t, b + SpecifierLen);
    assert t[e..] == rest by {
      Pieces(head + ";", ws, rest, t);
    }
    ImportMatcherAdvances();
    assert t[0..] == t;
    ReplaceAtMatch(t, 0, ImportMatcher, Erase, Match(e, ()), [], e);
    ReplaceFromDrop(t, e, e, ImportMatcher, Erase);
  }

  /**
   * An engine import statement at the start of the script is deleted together
   * with its trailer (spaces, an optional semicolon, whitespace), and the rest of
   * the script is patched on its own.
   */
  lemma PatchScriptAtImport(t: string, a: nat, b: nat)
    requires ImportStatement(t, a, b)
    ensures TrailerEnd(t, b + SpecifierLen) <= |t|
    ensures PatchScript(t) == PatchScript(t[TrailerEnd(t, b + SpecifierLen)..])
  {
    ImportMatcherFinds(t, a, b);
    PatchScriptAtMatch(t, TrailerEnd(t, b + SpecifierLen));
  }

  /** Whatever the import pattern matches at the start of the script is deleted. */
  lemma PatchScriptAtMatch(t: string, e: nat)
    requires ImportMatcher(t) == Some(Match(e, ()))
    ensures e <= |t| && PatchScript(t) == PatchScript(t[e..])
  {
    ImportMatcherAdvances();
    ReplaceAllAtMatch(t, ImportMatcher, Erase, Match(e, ()));
    var rest := ReplaceAll(t[e..], ImportMatcher, Erase);
    assert [] + rest == rest;
  }

  /** A script that does not start with an engine import keeps its first character; the rest is patched on its own. */
  lemma PatchScriptCopies(t: string)
    requires t != [] && forall a: nat, b: nat :: !ImportStatement(t, a, b)
    ensures PatchScript(t) == [t[0]] + PatchScript(t[1..])
  {
    ImportMatcherAdvances();
    ReplaceAllCopies(t, ImportMatcher, Erase);
  }

  /** A quoted engine module at the start of a suffix is one at the suffix's position. */
  lemma SpecifierShift(s: string, q: nat, b: nat)
    requires q <= |s| && SpecifierAt(s[q..], b)
    ensures SpecifierAt(s, q + b)
  {
    assert s[q..][b + 1..b + CloseQuote] == s[q + b + 1..q + b + CloseQuote];
  }

  /** A script that never quotes the engine module (other imports included) is returned unchanged. */
  lemma PatchScriptWithoutEngineModule(script: string)
    requires forall b :: !SpecifierAt(script, b)
    ensures PatchScript(script) == script
  {
    ImportMatcherAdvances();
    forall q | 0 <= q <= |script| ensures ImportMatcher(script[q..]).None? {
      if ImportMatcher(script[q..]).Some? {
        ImportMatcherSound(script[q..]);
        var a: nat, b: nat :| ImportStatement(script[q..], a, b);
        SpecifierShift(script, q, b);
      }
    }
    ReplaceNoMatch(script, 0, ImportMatcher, Erase);
    assert script[0..] == script;
  }

  // ------------------------------------------------------------------------
  // objStringify: JSON.stringify(obj, null, 4).replace(/"(\w+)":/g, '$1:')
  // ------------------------------------------------------------------------

  /** `"(\w+)":` at the start of `t`, with `key` as group 1. */
  predicate QuotedKeyPrefix(t: string, key: string) {
    && key != [] && AllIn(key, Word) && |key| + 3 <= |t|
    && t[0] == '"' && t[1..|key| + 1] == key && t[|key| + 1] == '"' && t[|key| + 2] == ':'
  }

  /**
   * The key pattern tried at the start of `t`. `\w+` is greedy and the quote after
   * it is not a word character, so nothing is ever given back.
   */
  function QuotedKeyMatcher(t: string): (r: Option<Match<string>>)
    ensures r.Some? ==> QuotedKeyPrefix(t, r.value.captures) && r.value.len == |r.value.captures| + 3
  {
    if t == [] || t[0] != '"' then None
    else
      var j := RunEnd(t, 1, Word);
      if 1 < j && j + 1 < |t| && t[j] == '"' && t[j + 1] == ':' then
        assert AllIn(t[1..j], Word);
        Some(Match(j + 2, t[1..j]))
      else None
  }

  /** Every quoted word key followed by a colon is matched, with that key. */
  lemma QuotedKeyMatcherFinds(t: string, key: string)
    requires QuotedKeyPrefix(t, key)
    ensures QuotedKeyMatcher(t) == Some(Match(|key| + 3, key))
  {
    assert forall j :: 1 <= j < |key| + 1 ==> t[j] == key[j - 1];
    RunEndUnique(t, 1, Word, |key| + 1);
  }

  /** Every match of the pattern consumes at least one character and stays inside the text. */
  lemma QuotedKeyMatcherAdvances()
    ensures Advances(QuotedKeyMatcher)
  {
  }

  /** The replacement `$1:`. */
  function KeyWithColon(key: string): string {
    key + ":"
  }

  /** The quoted keys the rewrite unquotes, in order. */
  function QuotedKeys(json: string): seq<Found<string>> {
    QuotedKeyMatcherAdvances();
    MatchAllFrom(json, 0, QuotedKeyMatcher)
  }

  /** The rewrite `objStringify` applies to the serialised object. */
  function UnquoteKeys(json: string): string {
    QuotedKeyMatcherAdvances();
    ReplaceAll(json, QuotedKeyMatcher, KeyWithColon)
  }

  /** Each rewrite drops exactly the two quotes; the text is unchanged exactly when there is no quoted key. */
  lemma UnquoteKeysLength(json: string)
    ensures |UnquoteKeys(json)| + 2 * |QuotedKeys(json)| == |json|
    ensures UnquoteKeys(json) == json <==> QuotedKeys(json) == []
  {
    QuotedKeyMatcherAdvances();
    ReplaceLength(json, 0, QuotedKeyMatcher, KeyWithColon);
    if QuotedKeys(json) == [] {
      ReplaceNoMatch(json, 0, QuotedKeyMatcher, KeyWithColon);
      assert json[0..] == json;
    }
  }

  /** A quoted word key and its colon at the start of the text lose their quotes; the rest is rewritten on its own. */
  lemma UnquoteKeysAtKey(json: string, key: string)
    requires QuotedKeyPrefix(json, key)
    ensures UnquoteKeys(json) == key + ":" + UnquoteKeys(json[|key| + 3..])
  {
    QuotedKeyMatcherAdvances();
    QuotedKeyMatcherFinds(json, key);
    ReplaceAllAtMatch(json, QuotedKeyMatcher, KeyWithColon, Match(|key| + 3, key));
  }

  /** Anywhere else the first character is copied and the rest is rewritten on its own. */
  lemma UnquoteKeysCopies(json: string)
    requires json != [] && forall key :: !QuotedKeyPrefix(json, key)
    ensures UnquoteKeys(json) == [json[0]] + UnquoteKeys(json[1..])
  {
    QuotedKeyMatcherAdvances();
    ReplaceAllCopies(json, QuotedKeyMatcher, KeyWithColon);
  }

  /** No suffix of `t` starts with a quoted key. */
  predicate NoQuotedKey(t: string) {
    forall j :: 0 <= j <= |t| ==> QuotedKeyMatcher(t[j..]).None?
  }

  /** `x`, then `":`, at the start of `t`. */
  predicate QuoteColonAfter(t: string, x: string) {
    |x| + 2 <= |t| && t[..|x|] == x && t[|x|] == '"' && t[|x| + 1] == ':'
  }

  /** At a quoted key the rewrite emits the key and a colon, then goes on at `next`, after the match. */
  lemma UnquoteAtKey(json: string, i: nat, key: string, next: nat)
    requires i < |json| && Advances(QuotedKeyMatcher)
    requires QuotedKeyMatcher(json[i..]).Some? && QuotedKeyMatcher(json[i..]).value.captures == key
    requires next == i + |key| + 3
    ensures next <= |json|
    ensures ReplaceFrom(json, i, QuotedKeyMatcher, KeyWithColon)
            == key + ":" + ReplaceFrom(json, next, QuotedKeyMatcher, KeyWithColon)
  {
    var mt := QuotedKeyMatcher(json[i..]).value;
    var out := key + ":";
    ReplaceAtMatch(json, i, QuotedKeyMatcher, KeyWithColon, mt, out, next);
  }

  /** Anywhere else the rewrite copies one character. */
  lemma UnquoteCopies(json: string, i: nat)
    requires i < |json| && Advances(QuotedKeyMatcher)
    requires QuotedKeyMatcher(json[i..]).None?
    ensures ReplaceFrom(json, i, QuotedKeyMatcher, KeyWithColon)
            == [json[i]] + ReplaceFrom(json, i + 1, QuotedKeyMatcher, KeyWithColon)
  {
    ReplaceCopies(json, i, QuotedKeyMatcher, KeyWithColon);
  }

  /** The first character the rewrite produces from `i`: copied, or the first character of a key. */
  lemma UnquoteHead(json: string, i: nat)
    requires i < |json| && Advances(QuotedKeyMatcher)
    ensures var out := ReplaceFrom(json, i, QuotedKeyMatcher, KeyWithColon);
            out != [] && (out[0] == json[i] || IsWordChar(out[0]))
  {
    if QuotedKeyMatcher(json[i..]).Some? {
      var key := QuotedKeyMatcher(json[i..]).value.captures;
      var next := i + |key| + 3;
      UnquoteAtKey(json, i, key, next);
      var rest := ReplaceFrom(json, next, QuotedKeyMatcher, KeyWithColon);
      assert (key + ":" + rest)[0] == key[0];
    } else {
      UnquoteCopies(json, i);
    }
  }

  /** The word characters a replacement starts with run up to its colon. */
  lemma ReplacementWordRun(key: string, rest: string)
    requires AllIn(key, Word)
    ensures var c := key + ":" + rest;
            RunEnd(c, 0, Word) == |key| && c[|key|] == ':'
  {
    var c := key + ":" + rest;
    assert forall j :: 0 <= j < |key| ==> c[j] == key[j];
    RunEndUnique(c, 0, Word, |key|);
  }

  /** Word characters followed by a quote: the run of word characters stops at the quote. */
  lemma QuoteColonWordRun(t: string, x: string)
    requires AllIn(x, Word)
    ensures QuoteColonAfter(t, x) ==> RunEnd(t, 0, Word) == |x| && t[|x|] == '"'
  {
    if QuoteColonAfter(t, x) {
      assert forall j :: 0 <= j < |x| ==> t[j] == t[..|x|][j];
      RunEndUnique(t, 0, Word, |x|);
    }
  }

  /** Where a quoted key is rewritten, the output starts with word characters and a colon, never a quote. */
  lemma NoQuoteColonAtKey(json: string, i: nat, x: string)
    requires i < |json| && AllIn(x, Word) && Advances(QuotedKeyMatcher)
    requires QuotedKeyMatcher(json[i..]).Some?
    ensures !QuoteColonAfter(ReplaceFrom(json, i, QuotedKeyMatcher, KeyWithColon), x)
  {
    var key := QuotedKeyMatcher(json[i..]).value.captures;
    var next := i + |key| + 3;
    UnquoteAtKey(json, i, key, next);
    var rest := ReplaceFrom(json, next, QuotedKeyMatcher, KeyWithColon);
    ReplacementWordRun(key, rest);
    QuoteColonWordRun(key + ":" + rest, x);
  }

  /**
   * If what the rewrite produces from position `i` starts with word characters `x`
   * and then `":`, the input has the same characters there.
   */
  lemma {:induction false} UnquotePrefixBack(json: string, i: nat, x: string)
    requires i <= |json| && AllIn(x, Word) && Advances(QuotedKeyMatcher)
    requires QuoteColonAfter(ReplaceFrom(json, i, QuotedKeyMatcher, KeyWithColon), x)
    ensures QuoteColonAfter(json[i..], x)
    decreases |json| - i
  {
    var out := ReplaceFrom(json, i, QuotedKeyMatcher, KeyWithColon);
    if i == |json| {
      ReplaceAtEnd(json, QuotedKeyMatcher, KeyWithColon);
    } else if QuotedKeyMatcher(json[i..]).Some? {
      NoQuoteColonAtKey(json, i, x);
    } else {
      var next := i + 1;
      UnquoteCopies(json, i);
      var rest := ReplaceFrom(json, next, QuotedKeyMatcher, KeyWithColon);
      SuffixCons(json, i, next);
      if x == [] {
        QuoteColonConsEmpty(json[i], rest);
        UnquoteHead(json, next);
        QuoteColonConsEmptyBack(json[i], json[next..]);
      } else {
        QuoteColonCons(json[i], rest, x);
        UnquotePrefixBack(json, next, x[1..]);
        QuoteColonConsBack(json[i], json[next..], x);
      }
    }
  }

  lemma QuoteColonCons(c: char, u: string, x: string)
    requires x != [] && QuoteColonAfter([c] + u, x)
    ensures c == x[0] && QuoteColonAfter(u, x[1..])
  {
    assert ([c] + u)[..|x|][0] == c;
    assert u[..|x| - 1] == ([c] + u)[1..|x|];
  }

  lemma QuoteColonConsBack(c: char, u: string, x: string)
    requires x != [] && c == x[0] && QuoteColonAfter(u, x[1..])
    ensures QuoteColonAfter([c] + u, x)
  {
    assert ([c] + u)[..|x|] == [c] + u[..|x| - 1];
  }

  lemma QuoteColonConsEmpty(c: char, u: string)
    requires QuoteColonAfter([c] + u, [])
    ensures c == '"' && u != [] && u[0] == ':'
  {
    assert ([c] + u)[1] == u[0];
  }

  lemma QuoteColonConsEmptyBack(c: char, u: string)
    requires c == '"' && u != [] && u[0] == ':'
    ensures QuoteColonAfter([c] + u, [])
  {
    assert ([c] + u)[1] == u[0];
  }

  /** A replacement in front of text without a quoted key leaves no quoted key: it holds no quote. */
  lemma NoQuotedKeyAfterReplacement(key: string, rest: string)
    requires AllIn(key, Word) && NoQuotedKey(rest)
    ensures NoQuotedKey(key + ":" + rest)
  {
    var t := key + ":" + rest;
    forall j | 0 <= j <= |t| ensures QuotedKeyMatcher(t[j..]).None? {
      if j < |key| {
        assert t[j..][0] == key[j];
      } else if j == |key| {
        assert t[j..][0] == ':';
      } else {
        assert t[j..] == rest[j - |key| - 1..];
      }
    }
  }

  /** One character in front of text without a quoted key adds at most the quoted key it starts. */
  lemma NoQuotedKeyCons(c: char, rest: string)
    requires NoQuotedKey(rest) && QuotedKeyMatcher([c] + rest).None?
    ensures NoQuotedKey([c] + rest)
  {
    var t := [c] + rest;
    forall j | 1 <= j <= |t| ensures QuotedKeyMatcher(t[j..]).None? {
      assert t[j..] == rest[j - 1..];
    }
  }

  /** A quoted key that starts at a character in front of `u`: the quote, then the key, `"` and `:` in `u`. */
  lemma QuotedKeyCons(c: char, u: string)
    requires QuotedKeyMatcher([c] + u).Some?
    ensures var key := QuotedKeyMatcher([c] + u).value.captures;
            c == '"' && AllIn(key, Word) && QuoteColonAfter(u, key)
  {
    var t := [c] + u;
    var key := QuotedKeyMatcher(t).value.captures;
    assert u[..|key|] == t[1..|key| + 1];
  }

  /** ... and conversely, such text is matched. */
  lemma QuotedKeyConsBack(c: char, u: string, key: string)
    requires c == '"' && key != [] && AllIn(key, Word) && QuoteColonAfter(u, key)
    ensures QuotedKeyMatcher([c] + u).Some?
  {
    var t := [c] + u;
    assert t[1..|key| + 1] == u[..|key|];
    QuotedKeyMatcherFinds(t, key);
  }

  /** A quote the rewrite copies does not start a quoted key in the output either. */
  lemma CopiedQuoteStaysUnmatched(json: string, i: nat)
    requires i < |json| && Advances(QuotedKeyMatcher)
    requires QuotedKeyMatcher(json[i..]).None?
    ensures QuotedKeyMatcher(ReplaceFrom(json, i, QuotedKeyMatcher, KeyWithColon)).None?
  {
    var out := ReplaceFrom(json, i, QuotedKeyMatcher, KeyWithColon);
    var next := i + 1;
    UnquoteCopies(json, i);
    var rest := ReplaceFrom(json, next, QuotedKeyMatcher, KeyWithColon);
    SuffixCons(json, i, next);
    if QuotedKeyMatcher(out).Some? {
      var key := QuotedKeyMatcher(out).value.captures;
      QuotedKeyCons(json[i], rest);
      UnquotePrefixBack(json, next, key);
      QuotedKeyConsBack(json[i], json[next..], key);
    }
  }

  /** Nothing the rewrite produces from position `i` on is a quoted key. */
  lemma {:induction false} NoQuotedKeyLeft(json: string, i: nat)
    requires i <= |json| && Advances(QuotedKeyMatcher)
    ensures NoQuotedKey(ReplaceFrom(json, i, QuotedKeyMatcher, KeyWithColon))
    decreases |json| - i
  {
    if i == |json| {
      ReplaceAtEnd(json, QuotedKeyMatcher, KeyWithColon);
    } else if QuotedKeyMatcher(json[i..]).Some? {
      var key := QuotedKeyMatcher(json[i..]).value.captures;
      var next := i + |key| + 3;
      UnquoteAtKey(json, i, key, next);
      var rest := ReplaceFrom(json, next, QuotedKeyMatcher, KeyWithColon);
      NoQuotedKeyLeft(json, next);
      NoQuotedKeyAfterReplacement(key, rest);
    } else {
      var next := i + 1;
      UnquoteCopies(json, i);
      var rest := ReplaceFrom(json, next, QuotedKeyMatcher, KeyWithColon);
      NoQuotedKeyLeft(json, next);
      CopiedQuoteStaysUnmatched(json, i);
      NoQuotedKeyCons(json[i], rest);
    }
  }

  /** After the rewrite no quoted key is left, so rewriting again changes nothing. */
  lemma UnquoteKeysIdempotent(json: string)
    ensures NoQuotedKey(UnquoteKeys(json))
    ensures UnquoteKeys(UnquoteKeys(json)) == UnquoteKeys(json)
  {
    QuotedKeyMatcherAdvances();
    var out := UnquoteKeys(json);
    NoQuotedKeyLeft(json, 0);
    assert MatchAllFrom(out, 0, QuotedKeyMatcher) == [];
    ReplaceNoMatch(out, 0, QuotedKeyMatcher, KeyWithColon);
    assert out[0..] == out;
  }
}
