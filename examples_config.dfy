/**
 * Worked instances of the utilities on concrete scripts: the directives an
 * example file carries, how their values are stored, the engine build chosen,
 * and an engine import being stripped.
 */
module ScriptExamples {
  import opened Wrappers
  import opened JsText
  import opened JsRegex
  import opened ScriptUtils

  /** A directive with no value, at the very end of the script, stores `true`. */
  lemma HiddenAtEnd()
    ensures ConfigOf("// @config HIDDEN") == map["HIDDEN" := Bool(true)]
  {
    assert "// @config HIDDEN" == Marker + "HIDDEN";
    assert AllIn("HIDDEN", NonWhitespace);
    ConfigOfBare("HIDDEN");
  }

  /**
   * A directive whose key ends its line takes the next line as its value, even
   * when that line is itself a directive: the second directive is never visited.
   */
  lemma SwallowedDirective()
    ensures ConfigOf(Marker + "A" + "\n" + (Marker + "HIDDEN")) == map["A" := Str(Marker + "HIDDEN")]
    ensures "HIDDEN" !in ConfigOf(Marker + "A" + "\n" + (Marker + "HIDDEN"))
  {
    var v := Marker + "HIDDEN";
    var s := Marker + "A" + "\n" + v;
    assert AllIn("A", NonWhitespace) && AllIn("\n", Whitespace);
    DirectiveLine(v);
    assert s == Marker + "A" + "\n" + v + [];
    ConfigMatcherValue("A", "\n", v, []);
    ConfigOfSingle(s, Directive("A", Some(v)));
    InterpretDirectiveLine(v);
  }

  /** `// @config HIDDEN` is a line that starts with non-whitespace. */
  lemma DirectiveLine(v: string)
    requires v == Marker + "HIDDEN"
    ensures v != [] && !IsWhitespace(v[0]) && AllIn(v, NotNewline)
    ensures v[|v| - 1] == 'N'
  {
    assert v == "// @config HIDDEN";
  }

  /** `// @config HIDDEN` names no boolean, so it is stored as text. */
  lemma InterpretDirectiveLine(v: string)
    requires v == Marker + "HIDDEN"
    ensures Interpret(Some(v)) == Str(v)
  {
    TrimDirectiveLine(v);
    DirectiveLineLetters(v);
    NoOccurrence(v, "true", 1);
    NoOccurrence(v, "false", 1);
  }

  /** `// @config HIDDEN` has no surrounding whitespace to trim. */
  lemma TrimDirectiveLine(v: string)
    requires v == Marker + "HIDDEN"
    ensures Trim(v) == v
  {
    DirectiveLine(v);
    assert v == [] + v + [];
    TrimPadded([], v, []);
  }

  /** Neither `r` nor `a` occurs in `// @config HIDDEN`. */
  lemma DirectiveLineLetters(v: string)
    requires v == Marker + "HIDDEN"
    ensures forall j :: 0 <= j < |v| ==> v[j] != 'r' && v[j] != 'a'
  {
    assert v == "// @config HIDDEN";
  }

  /** A word with a letter the text lacks does not occur in the text. */
  lemma NoOccurrence(v: string, w: string, k: nat)
    requires k < |w| && forall j :: 0 <= j < |v| ==> v[j] != w[k]
    ensures !Contains(v, w)
  {
    forall i | 0 <= i <= |v| - |w| ensures !OccursAt(v, w, i) {
      assert v[i..i + |w|][k] == v[i + k];
    }
  }

  /** A directive's value is stored under its key, trimmed, as text when it names no boolean. */
  lemma DescriptionText()
    ensures ConfigOf("// @config DESCRIPTION Lit") == map["DESCRIPTION" := Str("Lit")]
  {
    assert "// @config DESCRIPTION Lit" == Marker + "DESCRIPTION" + " " + "Lit";
    assert AllIn("DESCRIPTION", NonWhitespace) && AllIn("Lit", NotNewline);
    ConfigOfValue("DESCRIPTION", "Lit");
    InterpretShortText();
  }

  /** A value too short to mention a boolean is stored as its text. */
  lemma InterpretShortText()
    ensures Interpret(Some("Lit")) == Str("Lit")
  {
    assert "Lit" == [] + "Lit" + [];
    TrimPadded([], "Lit", []);
  }

  /** The value of a directive is trimmed; a value naming neither boolean is stored as text. */
  lemma InterpretText()
    ensures Interpret(Some(" 42 ")) == Str("42")
  {
    assert " 42 " == " " + "42" + " ";
    TrimPadded(" ", "42", " ");
  }

  /** Exactly `true` is true. */
  lemma InterpretTrue()
    ensures Interpret(Some("true")) == Bool(true)
  {
    assert "true" == [] + "true" + [];
    TrimPadded([], "true", []);
  }

  /** `false`, once trimmed, is false. */
  lemma InterpretFalse()
    ensures Interpret(Some(" false")) == Bool(false)
  {
    assert " false" == " " + "false" + [];
    TrimPadded(" ", "false", []);
    assert OccursAt("false", "false", 0);
  }

  /** Any other value mentioning `true` is false too. */
  lemma InterpretNotTrue()
    ensures Interpret(Some("not true")) == Bool(false)
  {
    TrimNotTrue();
    MentionsTrue();
  }

  /** `not true` mentions `true`. */
  lemma MentionsTrue()
    ensures Contains("not true", "true")
  {
    assert OccursAt("not true", "true", 4);
  }

  /** `not true` has no surrounding whitespace to trim. */
  lemma TrimNotTrue()
    ensures Trim("not true") == "not true"
  {
    assert "not true" == [] + "not true" + [];
    TrimPadded([], "not true", []);
  }

  /** The engine tag an example names picks its build; anything else gets the default build. */
  lemma EngineChoices()
    ensures EngineFor(Some(Str("performance"))) == "./playcanvas.prf.mjs"
    ensures EngineFor(None) == "./playcanvas.mjs"
    ensures EngineFor(Some(Str("webgpu"))) == "./playcanvas.mjs"
    ensures EngineFor(Some(Bool(true))) == "./playcanvas.mjs"
  {
  }

  /**
   * `  import pc from 'playcanvas';` followed by a line break and `x`: the import
   * goes with its leading spaces, its semicolon and the line break after it.
   */
  lemma PatchLeadingImport()
    ensures PatchScript("  " + ImportWord + " pc from " + "'" + EngineModule + "'" + ";" + "\n" + "x") == "x"
  {
    var head := "  " + ImportWord + " pc from " + "'" + EngineModule + "'";
    assert AllIn("  ", Space) && AllIn(" pc from ", ImportClause);
    ImportStatementOf("  ", " pc from ", '\'', '\'');
    assert AllIn("\n", Whitespace);
    PatchScriptDropsImport(head, |"  "|, |"  " + ImportWord + " pc from "|, "\n", "x");
    PatchScriptKeepsPlainText();
  }

  /** Text too short to hold an import is left alone. */
  lemma PatchScriptKeepsPlainText()
    ensures PatchScript("x") == "x"
  {
    ImportMatcherAdvances();
    assert ImportMatcher("x") == None;
    assert "x"[1..] == [];
    assert ReplaceFrom("x", 0, ImportMatcher, Erase) == ['x'] + ReplaceFrom("x", 1, ImportMatcher, Erase);
  }

  /** `{"a":1}` becomes `{a:1}`: the key loses its quotes, everything else is copied. */
  lemma UnquoteObject()
    ensures UnquoteKeys("{\"a\":1}") == "{a:1}"
  {
    var json := "{\"a\":1}";
    assert forall key :: !QuotedKeyPrefix(json, key);
    UnquoteKeysCopies(json);
    assert json[1..] == "\"a\":1}";
    UnquoteKeyThenValue();
  }

  /** `"a":1}` becomes `a:1}`. */
  lemma UnquoteKeyThenValue()
    ensures UnquoteKeys("\"a\":1}") == "a:1}"
  {
    var json := "\"a\":1}";
    assert AllIn("a", Word);
    UnquoteKeysAtKey(json, "a");
    assert json[4..] == "1}";
    UnquotePlainTail();
  }

  /** `1}` holds no quote and is copied. */
  lemma UnquotePlainTail()
    ensures UnquoteKeys("1}") == "1}"
  {
    UnquoteKeysCopies("1}");
    assert "1}"[1..] == "}";
    UnquoteKeysCopies("}");
    assert "}"[1..] == [];
    QuotedKeyMatcherAdvances();
  }
}
