/** `is_question` (scripts/monitor.py): a reply is a question when its lower-cased text
    contains one of a fixed list of markers. */
module Questions {
  import opened Text

  /** The markers, in the order the source lists them: the ASCII and full-width question
      marks, Chinese interrogative words, and English interrogative words. */
  const QuestionMarkers: seq<string> := [
    "?", "\U{FF1F}",
    "\U{600E}\U{4E48}", "\U{5982}\U{4F55}", "\U{4E3A}\U{4EC0}\U{4E48}", "\U{4E3A}\U{5565}",
    "\U{4EC0}\U{4E48}\U{539F}\U{56E0}", "\U{8BF7}\U{6559}", "\U{8BF7}\U{95EE}",
    "\U{80FD}\U{4E0D}\U{80FD}", "\U{53EF}\U{4EE5}\U{5417}", "\U{662F}\U{4EC0}\U{4E48}",
    "\U{600E}\U{6837}",
    "how", "why", "what", "can you", "is there", "does"
  ]

  predicate IsQuestion(text: string) {
    exists m :: m in QuestionMarkers && Contains(Lower(text), m)
  }

  /** No marker has an upper-case letter, so lower-casing never hides one. */
  lemma MarkersAreLowerCase()
    ensures forall m, j :: m in QuestionMarkers && 0 <= j < |m| ==> !IsUpper(m[j])
  {
    forall k | 0 <= k < |QuestionMarkers| ensures NoUpper(QuestionMarkers[k]) {
    }
    assert forall m :: m in QuestionMarkers ==> NoUpper(m);
  }

  predicate NoUpper(m: string) {
    forall j :: 0 <= j < |m| ==> !IsUpper(m[j])
  }

  /** A marker, as listed, anywhere in the text makes the text a question. */
  lemma MarkerMakesQuestion(text: string, m: string)
    requires m in QuestionMarkers
    requires Contains(text, m)
    ensures IsQuestion(text)
  {
    MarkersAreLowerCase();
    LowerKeepsOccurrence(text, m);
  }

  /** A marker written in any ASCII case makes the text a question: `HOW are you` is
      classified through the marker `how`. */
  lemma MarkerInAnyCase(text: string, m: string, written: string)
    requires m in QuestionMarkers
    requires Lower(written) == m
    requires Contains(text, written)
    ensures IsQuestion(text)
  {
    LowerMapsOccurrence(text, written);
  }

  /** Any text with a question mark, ASCII or full-width, is a question. */
  lemma QuestionMarkIsQuestion(text: string)
    requires Contains(text, "?") || Contains(text, "\U{FF1F}")
    ensures IsQuestion(text)
  {
    if Contains(text, "?") {
      MarkerMakesQuestion(text, "?");
    } else {
      MarkerMakesQuestion(text, "\U{FF1F}");
    }
  }

  /** The classifier ignores ASCII case. */
  lemma IsQuestionIgnoresCase(text: string)
    ensures IsQuestion(text) == IsQuestion(Lower(text))
  {
    assert Lower(Lower(text)) == Lower(text);
  }

  /** A pattern with a character the text lacks does not occur in it. */
  lemma MissingCharNotContained(s: string, pat: string, j: int)
    requires 0 <= j < |pat| && pat[j] !in s
    ensures !Contains(s, pat)
  {
    ContainsIff(s, pat);
  }

  /** Examples of the classifier's documented behaviour. */
  lemma QuestionExamples()
    ensures IsQuestion("How are you?")
    ensures IsQuestion("\U{4E3A}\U{4EC0}\U{4E48}\U{5462}")
  {
    assert OccursAt("How are you?", "?", 11);
    ContainsIff("How are you?", "?");
    QuestionMarkIsQuestion("How are you?");
    assert OccursAt("\U{4E3A}\U{4EC0}\U{4E48}\U{5462}", "\U{4E3A}\U{4EC0}\U{4E48}", 0);
    ContainsIff("\U{4E3A}\U{4EC0}\U{4E48}\U{5462}", "\U{4E3A}\U{4EC0}\U{4E48}");
    MarkerMakesQuestion("\U{4E3A}\U{4EC0}\U{4E48}\U{5462}", "\U{4E3A}\U{4EC0}\U{4E48}");
  }

  /** An exclamation with no marker is not a question. */
  lemma NotAQuestionExample()
    ensures !IsQuestion("Nice!")
  {
    var lowered := "nice!";
    assert Lower("Nice!") == lowered;
    forall m | m in QuestionMarkers ensures !Contains(lowered, m) {
      MissingCharNotContained(lowered, m, if m == "can you" || m == "is there" then 1 else 0);
    }
  }
}
