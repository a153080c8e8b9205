# Example-script helpers of the PlayCanvas engine examples, in Dafny

The examples browser of the PlayCanvas engine builds each example from a script
file. The build tool's helpers in `examples/scripts/utils.mjs` read and rewrite
those scripts as text:

- `parseConfig` scans a script for `// @config KEY value` directives with a
  global regular expression and collects them into a configuration object;
- `engineFor` maps an example's `ENGINE` tag to the engine build it loads;
- `patchScript` deletes the script's own `import … from 'playcanvas'`
  statements;
- `objStringify` serialises an object and unquotes its keys with a global
  `replace`.

This project models the scanning and rewriting those helpers do and proves
what they promise.

- `wrappers.dfy`: `Option`.
- `js_text.dfy` (module `JsText`): the ECMAScript character classes the
  patterns use (`\s`, `\S`, `\w`, the import-clause class, `[^\n]`), greedy
  runs of a class, `String.prototype.trim`, substring search, and
  subsequences.
- `js_regex.dfy` (module `JsRegex`): a global (`g`) regular expression.
  - A pattern is a `Matcher`: the result of trying it at the start of a text.
  - `Exec` is `RegExp.prototype.exec` searching from `lastIndex`.
  - `MatchAllFrom` is the loop that calls `exec` until it fails.
  - `ReplaceFrom`/`ReplaceAll` is `String.prototype.replace`.
- `script_utils.dfy` (module `ScriptUtils`): each of the three patterns as a
  matcher with its backtracking worked out, and the helpers built on them.
  - `ParseConfig` is a method with the source's `while` loop and a mutable map.
  - It is proved to compute `ConfigOf`, the specification function the
    lemmas speak about.
  - `EngineFor` is `engineFor`.
  - `PatchScript` is `patchScript`: a global `replace` of `ImportMatcher`'s
    matches with the empty string.
  - `UnquoteKeys` is the `.replace(/"(\w+)":/g, '$1:')` step of `objStringify`,
    a global `replace` of `QuotedKeyMatcher`'s matches.
- `examples_config.dfy` (module `ScriptExamples`): the helpers on concrete
  scripts.

Notes on the directive pattern `/\/\/ @config (\S+)(?:\s+([^\n]+))?/g`:

- `\s+` may cross line feeds. A directive whose key ends a line therefore
  takes the next non-blank line as its value, whatever its indentation: the
  blank lines and the indentation are part of what `\s+` consumes.
- When only whitespace follows the key up to the end of the script, `\s+`
  gives characters back. The value is then the last character that is not a
  line feed, or there is no value when every character after the first is a
  line feed.
- `ConfigMatcher` models these cases exactly. `ConfigMatcherValue`,
  `ConfigMatcherBare` and `ConfigMatcherBlankTail` state them.

## Model

| member | source | states |
|---|---|---|
| JsText.Trim | examples/scripts/utils.mjs:61-62 | `trim` returns a piece of its input that starts and ends with non-whitespace, with only whitespace cut off on either side |
| JsText.TrimPadded | examples/scripts/utils.mjs:61-62 | `trim` of whitespace + inner text + whitespace is exactly the inner text, when that starts and ends with non-whitespace |
| JsRegex.Exec | examples/scripts/utils.mjs:60 | `regex.exec` from `lastIndex` returns the leftmost position at or after `lastIndex` where the pattern matches; it fails only when no position from `lastIndex` to the end matches |
| JsRegex.MatchAllFrom | examples/scripts/utils.mjs:60-64 | the matches the `exec` loop visits lie inside the text, do not overlap, come in order, and there are none exactly when no position matches |
| JsRegex.MatchAllFromNoneBefore | examples/scripts/utils.mjs:60 | the loop skips no match before the first one it visits: the pattern matches nowhere from `lastIndex` up to it |
| JsRegex.MatchAllFromNoneBetween | examples/scripts/utils.mjs:60-64 | the loop skips no match between two it visits: the pattern matches nowhere from the end of one to the start of the next |
| JsRegex.MatchAllFromNoneAfter | examples/scripts/utils.mjs:60-64 | the loop skips no match after the last one it visits: the pattern matches nowhere from its end to the end of the text |
| JsRegex.ReplaceFromExec | examples/scripts/utils.mjs:92 | global `replace` copies the text up to the leftmost match `exec` finds, emits the replacement and resumes after the match; it copies the rest when there is no match |
| JsRegex.CopyUpTo | examples/scripts/utils.mjs:92 | a stretch of text where the pattern matches nowhere is copied unchanged by `replace` |
| JsRegex.ReplaceFromDrop | examples/scripts/utils.mjs:92 | what `replace` does from a position on depends only on the text from that position |
| JsRegex.ReplaceAllAtMatch | examples/scripts/utils.mjs:18 | a text that starts with a match becomes the replacement, followed by the rest of the text replaced on its own |
| JsRegex.ReplaceAllCopies | examples/scripts/utils.mjs:18 | a text that does not start with a match keeps its first character, followed by the rest replaced on its own |
| JsRegex.ReplaceNoMatch | examples/scripts/utils.mjs:92 | `replace` returns the text unchanged when the pattern matches nowhere |
| JsRegex.ReplaceLength | examples/scripts/utils.mjs:18 | when each replacement is two characters shorter than its match, the result is two characters shorter per match |
| JsRegex.ReplaceShrinks | examples/scripts/utils.mjs:92 | when each replacement is shorter than its match, the result is at least one character shorter per match |
| JsRegex.ReplaceDeletes | examples/scripts/utils.mjs:92 | a `replace` with the empty string keeps the rest of the text in its order |
| ScriptUtils.KeyEnd | examples/scripts/utils.mjs:56 | `(\S+)` after the marker takes the maximal non-empty run of non-whitespace |
| ScriptUtils.GroupTwo | examples/scripts/utils.mjs:56 | `(?:\s+([^\n]+))?` after the key either captures a non-empty value that runs to the end of its line, after at least one whitespace character, or is skipped, leaving only a key-less tail of whitespace and line feeds |
| ScriptUtils.GiveBack | examples/scripts/utils.mjs:56 | when the whitespace after the key reaches the end of the script, backtracking yields as the value the last character after the first that is not a line feed, or no value when every character after the first is a line feed |
| ScriptUtils.ConfigMatcher | examples/scripts/utils.mjs:56 | the directive pattern matches at a position exactly when `// @config ` is followed by a non-whitespace character there; the match has the maximal key and group 2 as `GroupTwo` describes |
| ScriptUtils.ConfigMatcherValue | examples/scripts/utils.mjs:56 | marker, key, whitespace (line feeds included), then a line starting with non-whitespace: the value is that whole line |
| ScriptUtils.ConfigMatcherBare | examples/scripts/utils.mjs:56 | marker and key followed by nothing, or by one whitespace character and then only line feeds: the match has no value |
| ScriptUtils.ConfigMatcherBlankTail | examples/scripts/utils.mjs:56 | marker and key followed only by whitespace to the end of the script, with a character other than a line feed after the first whitespace character: the value is the last such character |
| ScriptUtils.Interpret | examples/scripts/utils.mjs:62-63 | a stored value is `true` exactly when there is no value or the trimmed value is `true`; it is the trimmed value, as a string, exactly when the trimmed value contains neither `true` nor `false`; when it contains either, it is the boolean "the trimmed value is exactly `true`" |
| ScriptUtils.Apply | examples/scripts/utils.mjs:63 | after storing the visited directives, the keys present are the old ones plus the directives' keys |
| ScriptUtils.TrimKey | examples/scripts/utils.mjs:61 | `match[1].trim()` leaves the key unchanged, because the key has no whitespace |
| ScriptUtils.ParseStep | examples/scripts/utils.mjs:60-63 | one turn of the loop, storing the directive `exec` found under its trimmed key, leaves the same result to compute from the new `lastIndex` |
| ScriptUtils.ParseConfig | examples/scripts/utils.mjs:55-66 | the `exec` loop with its mutable object returns `ConfigOf(script)`: the directives in order, each stored under its key |
| ScriptUtils.ApplyKeeps | examples/scripts/utils.mjs:63 | an entry whose key no later directive names keeps its value |
| ScriptUtils.ApplyLastWins | examples/scripts/utils.mjs:63 | a key's entry is the value of the last directive that names it |
| ScriptUtils.ConfigKeysFollowMarkers | examples/scripts/utils.mjs:56-65 | every key of the configuration is a maximal non-empty run of non-whitespace directly after a `// @config ` marker in the script |
| ScriptUtils.ConfigEmptyIff | examples/scripts/utils.mjs:56-65 | the configuration is empty exactly when no `// @config ` marker is followed by a non-whitespace character |
| ScriptUtils.ConfigLastWins | examples/scripts/utils.mjs:60-64 | when a key occurs in several directives, the configuration holds the value of the last one |
| ScriptUtils.ScanSingle | examples/scripts/utils.mjs:60 | a script that one directive match covers completely holds exactly that directive |
| ScriptUtils.ApplySingle | examples/scripts/utils.mjs:63 | one directive stored into an empty object gives a one-entry object |
| ScriptUtils.ConfigOfSingle | examples/scripts/utils.mjs:55-66 | a script that is one directive gives a one-entry configuration with that directive's value |
| ScriptUtils.ConfigOfBare | examples/scripts/utils.mjs:56-63 | a script that is only `// @config KEY` stores `true` under `KEY` and nothing else |
| ScriptUtils.ConfigOfValue | examples/scripts/utils.mjs:56-63 | a script that is only `// @config KEY value` stores the interpreted value under `KEY` and nothing else |
| ScriptUtils.EngineFor | examples/scripts/utils.mjs:74-84 | the build is one of four files; it is the development, performance or debug build exactly when the tag is `development`, `performance` or `debug`, and the default build otherwise (no tag, a boolean, any other string) |
| ScriptUtils.ImportHead | examples/scripts/utils.mjs:92 | what ` *import[\s\w*{},]+["']playcanvas["']` matches is spaces, `import`, a non-empty import clause and the quoted module name |
| ScriptUtils.TrailerEnd | examples/scripts/utils.mjs:92 | ` *;?\s*` takes spaces, at most one semicolon after them, and whitespace; it stops only at non-whitespace or the end, and never before a semicolon that only spaces precede |
| ScriptUtils.ImportMatcher | examples/scripts/utils.mjs:92 | a match of the import pattern consumes at least one character and stays inside the text |
| ScriptUtils.ImportMatcherSound | examples/scripts/utils.mjs:92 | every match of the import pattern is an engine import statement followed by its trailer, which stops at non-whitespace and never before a semicolon that only spaces precede |
| ScriptUtils.ImportMatcherAfterHead | examples/scripts/utils.mjs:92 | once the statement part of the pattern is recognised, the match runs on to the end of the greedy trailer |
| ScriptUtils.ImportHeadFinds | examples/scripts/utils.mjs:92 | every engine import statement at a position is recognised there, with its spaces and clause ending where they end |
| ScriptUtils.ImportMatcherFinds | examples/scripts/utils.mjs:92 | every engine import statement at a position is matched there, together with its whole trailer |
| ScriptUtils.TrailerSemicolon | examples/scripts/utils.mjs:92 | a semicolon and the whitespace after it are the whole trailer |
| ScriptUtils.ImportStatementOf | examples/scripts/utils.mjs:92 | spaces, `import`, a non-empty clause of whitespace, word characters, `*`, `{`, `}` and `,`, and `playcanvas` in either kind of quotes form an engine import statement |
| ScriptUtils.ImportLineMatch | examples/scripts/utils.mjs:92 | the import pattern takes an engine import statement, its semicolon and all whitespace after it |
| ScriptUtils.PatchScriptDropsImport | examples/scripts/utils.mjs:90-95 | an engine import statement with its semicolon and following whitespace is deleted whole, and the rest of the script is patched as if it stood alone |
| ScriptUtils.PatchScriptAtMatch | examples/scripts/utils.mjs:92 | whatever the import pattern matches at the start of the script is deleted, and the rest is patched on its own |
| ScriptUtils.PatchScriptAtImport | examples/scripts/utils.mjs:90-95 | an engine import statement at the start of the script is deleted with its trailer (spaces, an optional semicolon, whitespace), and the rest is patched on its own |
| ScriptUtils.PatchScriptCopies | examples/scripts/utils.mjs:90-95 | a script that does not start with an engine import statement keeps its first character, and the rest is patched on its own |
| ScriptUtils.PatchScriptShrinks | examples/scripts/utils.mjs:90-95 | the patched script is at least one character shorter per deleted import, and it is unchanged exactly when there is no engine import |
| ScriptUtils.PatchScriptKeepsOrder | examples/scripts/utils.mjs:90-95 | the patched script is the original with pieces deleted: what remains keeps its order |
| ScriptUtils.PatchScriptWithoutEngineModule | examples/scripts/utils.mjs:90-95 | a script that never quotes `playcanvas` as a module name (other imports included) is returned unchanged |
| ScriptUtils.QuotedKeyMatcher | examples/scripts/utils.mjs:18 | every match of `"(\w+)":` is a quote, a non-empty word key, a quote and a colon, and consumes exactly those characters |
| ScriptUtils.QuotedKeyMatcherFinds | examples/scripts/utils.mjs:18 | every quoted word key followed by a colon is matched, with that key as group 1 |
| ScriptUtils.UnquoteKeysLength | examples/scripts/utils.mjs:18 | the rewrite shortens the text by exactly two characters per quoted key, and changes it exactly when there is a quoted key |
| ScriptUtils.UnquoteKeysAtKey | examples/scripts/utils.mjs:18 | `"k":` at the start becomes `k:`, and the rest is rewritten on its own |
| ScriptUtils.UnquoteKeysCopies | examples/scripts/utils.mjs:18 | a text that does not start with a quoted key keeps its first character, and the rest is rewritten on its own |
| ScriptUtils.NoQuotedKeyLeft | examples/scripts/utils.mjs:18 | no quoted key is left anywhere in the rewritten text |
| ScriptUtils.UnquoteKeysIdempotent | examples/scripts/utils.mjs:18 | the rewritten text holds no quoted key, so rewriting it again changes nothing |
| ScriptExamples.HiddenAtEnd | examples/scripts/utils.mjs:56-63 | the script that is only `// @config HIDDEN` gives `{HIDDEN: true}` |
| ScriptExamples.DescriptionText | examples/scripts/utils.mjs:56-63 | the script that is only `// @config DESCRIPTION Lit` gives `{DESCRIPTION: "Lit"}` |
| ScriptExamples.SwallowedDirective | examples/scripts/utils.mjs:56-63 | `// @config A`, a line feed, then `// @config HIDDEN` gives `{A: "// @config HIDDEN"}`: the second directive becomes the first one's value and `HIDDEN` is not set |
| ScriptExamples.InterpretText | examples/scripts/utils.mjs:62-63 | the value ` 42 ` is stored as the string `42` |
| ScriptExamples.InterpretTrue | examples/scripts/utils.mjs:63 | the value `true` is stored as `true` |
| ScriptExamples.InterpretFalse | examples/scripts/utils.mjs:62-63 | the value ` false` is stored as `false` |
| ScriptExamples.InterpretNotTrue | examples/scripts/utils.mjs:63 | the value `not true` is stored as `false` |
| ScriptExamples.EngineChoices | examples/scripts/utils.mjs:74-84 | `performance` picks `./playcanvas.prf.mjs`; no tag, `webgpu` or a boolean picks `./playcanvas.mjs` |
| ScriptExamples.PatchLeadingImport | examples/scripts/utils.mjs:92 | `  import pc from 'playcanvas';`, a line feed and `x` is patched to `x` |
| ScriptExamples.UnquoteObject | examples/scripts/utils.mjs:18 | `{"a":1}` is rewritten to `{a:1}` |

## Left out

- `sleep` (examples/scripts/utils.mjs:7-11): a timer promise. There is nothing to state about it except wall-clock delay.
- `getDirFiles` (examples/scripts/utils.mjs:25-34): filesystem access (`existsSync`, `statSync`, `readdirSync`).
- `JSON.stringify(obj, null, 4)` inside `objStringify` (examples/scripts/utils.mjs:18): a library serialiser. Its output is taken as an arbitrary input string, and only the key-unquoting `replace` is modelled.
- The `Engine` and `ExampleConfig` typedefs (examples/scripts/utils.mjs:36-49): `parseConfig` checks neither keys nor values against them, so neither does the model.
- ScriptUtils.ParseConfig: a JavaScript object is modelled as a `map`.
  - The order in which keys were inserted is not modelled.
  - The special key `__proto__` is not modelled either. Assigning a string or a boolean to it goes to the `Object.prototype.__proto__` setter, which ignores values that are not objects. The source therefore stores nothing for that key, while the model stores the entry like any other.
- Characters are Unicode scalar values, while JavaScript strings are UTF-16 code units. A character outside the Basic Multilingual Plane is one character here and two code units there. `\S` and `[^\n]` can split such a pair; the model cannot.
- `ScriptUtils.ParseConfig`'s `lastIndex` is a local variable. A `RegExp` object created once per call and used only in that loop behaves the same way.
