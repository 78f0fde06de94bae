/**
 * `OnPropertyValueCondition.getMatchOutcome`: a startup condition that
 * activates a configuration unit when a named property has an expected
 * value, or, when so configured, when the property is not set at all.
 */
module OnPropertyValueCondition {
  import opened Wrappers
  import opened JavaString

  /** The attributes of `@ConditionalOnPropertyValue`, read off the annotated type. */
  datatype Attributes = Attributes(
    prefix: string,
    property: string,
    relaxedName: bool,
    value: string,
    defaultValue: bool)

  /** The match flag and the message of a `ConditionOutcome`. */
  datatype Outcome = Outcome(matched: bool, message: string)

  /**
   * Builds the property key from the trimmed prefix, the relaxed-name flag and
   * the property name, and resolves it against the environment; `None` is a
   * property that is not set.
   */
  type Lookup = (string, bool, string) -> Option<string>

  // The messages below are the Java method's concatenations, with the literals
  // split at the phrases the lemmas look for.

  /** Message of the outcome that matches because the property is absent. */
  function DefaultAssumedMessage(property: string, value: string): string {
    "@ConditionalOnProperty " + "no property '" + property + "' is set" + ", "
      + "assuming default value '" + value + "'"
  }

  /** Message of the outcome that does not match; a missing value shows as "null". */
  function WrongValueMessage(property: string, value: string, actual: Option<string>): string {
    "@ConditionalOnProperty wrong value for property '" + property + "': "
      + "expected '" + value + "'" + " " + "but got '" + ConcatForm(actual) + "'"
  }

  /**
   * The decision once the property has been looked up. It matches exactly when
   * the property is absent and the default applies, or when it is present and
   * equal to the expected value up to letter case.
   */
  function Evaluate(actual: Option<string>, value: string, defaultValue: bool, property: string): (r: Outcome)
    ensures r.matched <==> (actual.None? && defaultValue)
                           || (actual.Some? && LowerCase(actual.value) == LowerCase(value))
  {
    if actual.None? && defaultValue then
      Outcome(true, DefaultAssumedMessage(property, value))
    else if !EqualsIgnoreCase(value, actual) then
      Outcome(false, WrongValueMessage(property, value, actual))
    else
      Outcome(true, "")
  }

  /** The whole condition: trim the prefix, look the property up, decide. */
  function GetMatchOutcome(attributes: Attributes, lookup: Lookup): (r: Outcome)
    ensures var actual := lookup(Trim(attributes.prefix), attributes.relaxedName, attributes.property);
            r.matched <==> (actual.None? && attributes.defaultValue)
                           || (actual.Some? && LowerCase(actual.value) == LowerCase(attributes.value))
  {
    var prefix := Trim(attributes.prefix);
    var actual := lookup(prefix, attributes.relaxedName, attributes.property);
    Evaluate(actual, attributes.value, attributes.defaultValue, attributes.property)
  }

  // ---------------------------------------------------------------------------
  // The three branches
  // ---------------------------------------------------------------------------

  /** Absent property, default applies: a match whose message names the property and the assumed value. */
  lemma AbsentWithDefaultMatches(value: string, property: string)
    ensures Evaluate(None, value, true, property).matched
    ensures Contains(Evaluate(None, value, true, property).message, "no property '" + property + "' is set")
    ensures Contains(Evaluate(None, value, true, property).message, "assuming default value '" + value + "'")
  {
    var head := "@ConditionalOnProperty ";
    var named := "no property '" + property + "' is set";
    var assumed := "assuming default value '" + value + "'";
    assert DefaultAssumedMessage(property, value) == head + named + (", " + assumed);
    ContainsMiddle(head, named, ", " + assumed);
    assert DefaultAssumedMessage(property, value) == head + named + ", " + assumed + "";
    ContainsMiddle(head + named + ", ", assumed, "");
  }

  /** Absent property, no default: never a match (`equalsIgnoreCase(null)` is false), reported as "got 'null'". */
  lemma AbsentWithoutDefaultNeverMatches(value: string, property: string)
    ensures !Evaluate(None, value, false, property).matched
    ensures Contains(Evaluate(None, value, false, property).message, "expected '" + value + "'")
    ensures Contains(Evaluate(None, value, false, property).message, "but got 'null'")
  {
    WrongValueMentionsBoth(property, value, None);
  }

  /** Present and equal up to letter case: a match, whatever the default flag. */
  lemma PresentEqualIgnoringCaseMatches(actual: string, value: string, defaultValue: bool, property: string)
    requires EqualsIgnoreCase(value, Some(actual))
    ensures Evaluate(Some(actual), value, defaultValue, property) == Outcome(true, "")
  {
  }

  /** "TRUE" configured where "true" is expected matches. */
  lemma UpperCaseTrueMatchesTrue(defaultValue: bool, property: string)
    ensures Evaluate(Some("TRUE"), "true", defaultValue, property).matched
  {
    assert LowerCase("TRUE") == "true";
  }

  /** Present but different up to letter case: no match, and the message shows both values. */
  lemma PresentDifferentMismatches(actual: string, value: string, defaultValue: bool, property: string)
    requires !EqualsIgnoreCase(value, Some(actual))
    ensures !Evaluate(Some(actual), value, defaultValue, property).matched
    ensures Contains(Evaluate(Some(actual), value, defaultValue, property).message, "expected '" + value + "'")
    ensures Contains(Evaluate(Some(actual), value, defaultValue, property).message, "but got '" + actual + "'")
  {
    WrongValueMentionsBoth(property, value, Some(actual));
  }

  /** "false" configured where "true" is expected does not match. */
  lemma FalseDoesNotMatchTrue(defaultValue: bool, property: string)
    ensures !Evaluate(Some("false"), "true", defaultValue, property).matched
    ensures Contains(Evaluate(Some("false"), "true", defaultValue, property).message, "expected 'true'")
    ensures Contains(Evaluate(Some("false"), "true", defaultValue, property).message, "but got 'false'")
  {
    var expected, got := "expected '" + "true" + "'", "but got '" + "false" + "'";
    assert expected == "expected 'true'" && got == "but got 'false'";
    assert !EqualsIgnoreCase("true", Some("false")) by {
      assert |LowerCase("false")| == 5 && |LowerCase("true")| == 4;
    }
    PresentDifferentMismatches("false", "true", defaultValue, property);
  }

  lemma WrongValueMentionsBoth(property: string, value: string, actual: Option<string>)
    ensures Contains(WrongValueMessage(property, value, actual), "expected '" + value + "'")
    ensures Contains(WrongValueMessage(property, value, actual), "but got '" + ConcatForm(actual) + "'")
  {
    var head := "@ConditionalOnProperty wrong value for property '" + property + "': ";
    var expected := "expected '" + value + "'";
    var got := "but got '" + ConcatForm(actual) + "'";
    assert WrongValueMessage(property, value, actual) == head + expected + (" " + got);
    ContainsMiddle(head, expected, " " + got);
    assert WrongValueMessage(property, value, actual) == head + expected + " " + got + "";
    ContainsMiddle(head + expected + " ", got, "");
  }

  // ---------------------------------------------------------------------------
  // Properties across inputs
  // ---------------------------------------------------------------------------

  /** Once the property is present, the default flag has no influence on the outcome. */
  lemma DefaultIgnoredWhenPresent(actual: string, value: string, property: string)
    ensures Evaluate(Some(actual), value, true, property) == Evaluate(Some(actual), value, false, property)
  {
  }

  /** Changing the letter case of the configured value never changes whether the condition matches. */
  lemma ActualCaseIrrelevant(actual: string, value: string, defaultValue: bool, property: string)
    ensures Evaluate(Some(UpperCase(actual)), value, defaultValue, property).matched
            == Evaluate(Some(actual), value, defaultValue, property).matched
    ensures Evaluate(Some(LowerCase(actual)), value, defaultValue, property).matched
            == Evaluate(Some(actual), value, defaultValue, property).matched
  {
    LowerCaseOfUpperCase(actual);
    LowerCaseOfLowerCase(actual);
  }

  /** Any two spellings of the configured value that differ only in letter case decide alike. */
  lemma CaseVariantSameMatch(actual: string, variant: string, value: string, defaultValue: bool, property: string)
    requires LowerCase(variant) == LowerCase(actual)
    ensures Evaluate(Some(variant), value, defaultValue, property).matched
            == Evaluate(Some(actual), value, defaultValue, property).matched
  {
  }

  /** "TrUe" configured where "true" is expected matches, as "true" itself does. */
  lemma MixedCaseTrueMatchesTrue(defaultValue: bool, property: string)
    ensures Evaluate(Some("TrUe"), "true", defaultValue, property).matched
  {
    assert LowerCase("TrUe") == "true";
  }

  /** Swapping the expected and the configured value does not change whether the condition matches. */
  lemma ValueAndActualSymmetric(actual: string, value: string, defaultValue: bool, property: string)
    ensures Evaluate(Some(actual), value, defaultValue, property).matched
            == Evaluate(Some(value), actual, defaultValue, property).matched
  {
  }

  /** Whitespace around the prefix does not matter: the lookup sees the trimmed prefix. */
  lemma PrefixSeenTrimmed(attributes: Attributes, lookup: Lookup)
    ensures GetMatchOutcome(attributes, lookup)
            == GetMatchOutcome(attributes.(prefix := Trim(attributes.prefix)), lookup)
  {
    TrimIdempotent(attributes.prefix);
  }

  /** A prefix padded with characters up to U+0020 behaves as the bare prefix. */
  lemma PaddedPrefixSameOutcome(attributes: Attributes, lookup: Lookup, lead: string, trail: string)
    requires AllTrimmable(lead) && AllTrimmable(trail)
    ensures GetMatchOutcome(attributes.(prefix := lead + attributes.prefix + trail), lookup)
            == GetMatchOutcome(attributes, lookup)
  {
    TrimPadded(lead, attributes.prefix, trail);
  }

  /**
   * The relaxed-name flag reaches only the key lookup: when both spellings of
   * the key resolve to the same value, the outcome is the same.
   */
  lemma RelaxedNameOnlyAffectsLookup(attributes: Attributes, lookup: Lookup)
    requires lookup(Trim(attributes.prefix), true, attributes.property)
             == lookup(Trim(attributes.prefix), false, attributes.property)
    ensures GetMatchOutcome(attributes.(relaxedName := true), lookup)
            == GetMatchOutcome(attributes.(relaxedName := false), lookup)
  {
  }
}
