/** The `cleanText` helper of the lesson view (components/LessonView.tsx):
    four global replacements, each deleting a literal Markdown marker. */
module LessonView {
  import opened Sequences
  import opened JsString

  // Global replacements of `**`, then `*`, then `##`, then `__`, each by the empty string.
  function CleanText(text: string): string {
    DeleteAll(DeleteAll(DeleteAll(DeleteAll(text, "**"), "*"), "##"), "__")
  }

  /** No asterisk survives: the second pass removes all of them and the later
      passes only delete. */
  lemma CleanTextNoAsterisk(text: string)
    ensures '*' !in CleanText(text)
  {
    var a := DeleteAll(DeleteAll(text, "**"), "*");
    var b := DeleteAll(a, "##");
    DeleteAllChar(DeleteAll(text, "**"), '*');
    DeleteAllSubsequence(a, "##");
    DeleteAllSubsequence(b, "__");
    SubsequenceBounds(b, a);
    SubsequenceBounds(CleanText(text), b);
  }

  /** No two adjacent underscores survive the last pass. */
  lemma CleanTextNoDoubleUnderscore(text: string)
    ensures !Contains(CleanText(text), "__")
  {
    DeleteAllPair(DeleteAll(DeleteAll(DeleteAll(text, "**"), "*"), "##"), '_');
  }

  /** Cleaning only deletes characters: the output is a sub-sequence of the
      input, hence no longer than it. */
  lemma CleanTextDeletesOnly(text: string)
    ensures IsSubsequence(CleanText(text), text)
    ensures |CleanText(text)| <= |text|
  {
    var a := DeleteAll(text, "**");
    var b := DeleteAll(a, "*");
    var c := DeleteAll(b, "##");
    DeleteAllSubsequence(text, "**");
    DeleteAllSubsequence(a, "*");
    DeleteAllSubsequence(b, "##");
    DeleteAllSubsequence(c, "__");
    SubsequenceTrans(b, a, text);
    SubsequenceTrans(c, b, text);
    SubsequenceTrans(CleanText(text), c, text);
    SubsequenceBounds(CleanText(text), text);
  }

  /** A character absent from a string cannot start an occurrence in it. */
  lemma AbsentChar(s: string, p: string)
    requires |p| > 0 && p[0] !in s
    ensures !Contains(s, p)
  {
    forall i | 0 <= i <= |s| ensures !OccursAt(s, p, i) {
      if i + |p| <= |s| {
        assert s[i..i + |p|][0] == s[i];
      }
    }
  }

  /** Text without `*`, `#` or `_` comes back unchanged. */
  lemma CleanTextCleanInput(text: string)
    requires '*' !in text && '#' !in text && '_' !in text
    ensures CleanText(text) == text
  {
    AbsentChar(text, "**");
    DeleteAllAbsent(text, "**");
    AbsentChar(text, "*");
    DeleteAllAbsent(text, "*");
    AbsentChar(text, "##");
    DeleteAllAbsent(text, "##");
    AbsentChar(text, "__");
    DeleteAllAbsent(text, "__");
  }

  /** Cleaning a cleaned text changes nothing exactly when the cleaned text has
      no `##` left: the last pass can join two `#` that the `##` pass had
      already gone past. */
  lemma CleanTextIdempotentIff(text: string)
    ensures CleanText(CleanText(text)) == CleanText(text) <==> !Contains(CleanText(text), "##")
  {
    var y := CleanText(text);
    CleanTextNoAsterisk(text);
    CleanTextNoDoubleUnderscore(text);
    AbsentChar(y, "**");
    DeleteAllAbsent(y, "**");
    AbsentChar(y, "*");
    DeleteAllAbsent(y, "*");
    if Contains(y, "##") {
      DeleteAllShrinks(y, "##");
      var z := DeleteAll(y, "##");
      DeleteAllSubsequence(z, "__");
      SubsequenceBounds(DeleteAll(z, "__"), z);
      assert |CleanText(y)| < |y|;
    } else {
      DeleteAllAbsent(y, "##");
      DeleteAllAbsent(y, "__");
    }
  }

  /** Replacement is left to right and non-overlapping: of three `#` the
      first two are removed. */
  lemma CleanTextOddHashes()
    ensures CleanText("###") == "#"
  {
    assert DeleteAll("###", "**") == "###";
    assert DeleteAll("###", "*") == "###";
    assert DeleteAll("###", "##") == "#";
    assert DeleteAll("#", "__") == "#";
  }

  /** Of three `_` the first two are removed. */
  lemma CleanTextOddUnderscores()
    ensures CleanText("___") == "_"
  {
    assert DeleteAll("___", "**") == "___";
    assert DeleteAll("___", "*") == "___";
    assert DeleteAll("___", "##") == "___";
    assert DeleteAll("___", "__") == "_";
  }

  /** Four `*` form two bold markers and all of them go. */
  lemma CleanTextAsterisks()
    ensures CleanText("****") == ""
  {
    assert DeleteAll("****", "**") == "";
  }

  /** Deleting `__` can join two `#` that no earlier step saw together. */
  lemma CleanTextJoinsHashes()
    ensures CleanText("#__#") == "##"
  {
    assert DeleteAll("#__#", "**") == "#__#";
    assert DeleteAll("#__#", "*") == "#__#";
    assert DeleteAll("#__#", "##") == "#__#";
    assert DeleteAll("#__#", "__") == "##";
  }

  /** `cleanText` is not idempotent in general. */
  lemma CleanTextNotIdempotent()
    ensures CleanText(CleanText("#__#")) != CleanText("#__#")
  {
    CleanTextJoinsHashes();
    CleanTextIdempotentIff("#__#");
    assert OccursAt("##", "##", 0);
  }
}
