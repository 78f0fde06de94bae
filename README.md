# OnPropertyValueCondition, modelled in Dafny

Spring Boot's `OnPropertyValueCondition` decides, while the application context
starts, whether a configuration unit guarded by `@ConditionalOnPropertyValue`
is activated. It reads the annotation's attributes (`prefix`, `property`,
`relaxedName`, `value`, `defaultValue`), trims the prefix, looks the property
up in the environment and then decides:

1. property not set and `defaultValue` true: match, with a message saying that
   no property is set and that the default value is assumed;
2. otherwise, `value.equalsIgnoreCase(actual)` false (which includes an unset
   property): no match, with a message giving the expected value and the value
   it got (`null` when unset);
3. otherwise: match.

The model is pure, as the Java method is (one method, no fields, no loops):

- `wrappers.dfy`: `Option`, where `None` stands for Java `null`.
- `java_string.dfy` (module `JavaString`): `String.trim` (drop leading and
  trailing characters up to U+0020), `String.equalsIgnoreCase` following the
  per-character rule of `regionMatches(true, ...)` over an ASCII case fold,
  `contains`, and how `"" + s` renders a null string. `Trim` is tied to a
  reference definition (`IsTrimmingOf`: an infix of the input with a
  trimmable run cut off each end) in both directions, and `EqualsIgnoreCase`
  is tied to equality of the lower-case folds.
- `on_property_value_condition.dfy` (module `OnPropertyValueCondition`): the
  attributes, the (matched, message) outcome, the decision `Evaluate`, the
  whole `GetMatchOutcome` with the key construction and environment lookup
  passed in as a function, and the properties of the three branches.

The message for an unset property with a default is "@ConditionalOnProperty no
property '<p>' is set, assuming default value '<v>'", as the Java method builds it.

## Model

| member | source | states |
|---|---|---|
| `JavaString.LeadingCount` | spring-boot-autoconfigure/src/main/java/org/springframework/boot/autoconfigure/condition/OnPropertyValueCondition.java:40 | the number of leading characters `trim` skips: all of them are at most U+0020 and the next one, if any, is above it |
| `JavaString.TrailingCount` | spring-boot-autoconfigure/src/main/java/org/springframework/boot/autoconfigure/condition/OnPropertyValueCondition.java:40 | the number of trailing characters `trim` skips: all of them are at most U+0020 and the one before them, if any, is above it |
| `JavaString.Trim` | spring-boot-autoconfigure/src/main/java/org/springframework/boot/autoconfigure/condition/OnPropertyValueCondition.java:40 | the trimmed prefix is no longer than the original and neither starts nor ends with a character at most U+0020 |
| `JavaString.TrimIsTrimming` | spring-boot-autoconfigure/src/main/java/org/springframework/boot/autoconfigure/condition/OnPropertyValueCondition.java:40 | the trimmed prefix is a contiguous infix of the original, and everything cut off on either side is at most U+0020 |
| `JavaString.TrimUnique` | spring-boot-autoconfigure/src/main/java/org/springframework/boot/autoconfigure/condition/OnPropertyValueCondition.java:40 | any string obtained by cutting such runs off both ends and left without outer blanks is exactly the trimmed prefix |
| `JavaString.TrimIdempotent` | spring-boot-autoconfigure/src/main/java/org/springframework/boot/autoconfigure/condition/OnPropertyValueCondition.java:40 | trimming the trimmed prefix again leaves it unchanged |
| `JavaString.TrimPadded` | spring-boot-autoconfigure/src/main/java/org/springframework/boot/autoconfigure/condition/OnPropertyValueCondition.java:40 | padding any string with characters up to U+0020 on either side leaves its trimmed form unchanged |
| `JavaString.CharsMatchIffSameFold` | spring-boot-autoconfigure/src/main/java/org/springframework/boot/autoconfigure/condition/OnPropertyValueCondition.java:54 | over the ASCII fold, Java's per-character ignore-case test (equal, equal upper-cased, or equal lower-cased after upper-casing) holds exactly when the lower-case folds agree |
| `JavaString.EqualsIgnoreCase` | spring-boot-autoconfigure/src/main/java/org/springframework/boot/autoconfigure/condition/OnPropertyValueCondition.java:54 | `value.equalsIgnoreCase(actual)` is true exactly when `actual` is non-null and both strings have the same lower-case fold (over the ASCII fold); a null argument never matches |
| `JavaString.EqualsIgnoreCaseSymmetric` | spring-boot-autoconfigure/src/main/java/org/springframework/boot/autoconfigure/condition/OnPropertyValueCondition.java:54 | comparing `value` with `actual` ignoring case gives the same answer as comparing `actual` with `value` |
| `JavaString.EqualsIgnoreCaseIgnoresArgumentCase` | spring-boot-autoconfigure/src/main/java/org/springframework/boot/autoconfigure/condition/OnPropertyValueCondition.java:54 | upper-casing or lower-casing the compared string never changes the answer of the ignore-case comparison |
| `OnPropertyValueCondition.Evaluate` | spring-boot-autoconfigure/src/main/java/org/springframework/boot/autoconfigure/condition/OnPropertyValueCondition.java:50-58 | the outcome matches exactly when the property is absent and `defaultValue` holds, or it is present and equal to `value` up to letter case |
| `OnPropertyValueCondition.GetMatchOutcome` | spring-boot-autoconfigure/src/main/java/org/springframework/boot/autoconfigure/condition/OnPropertyValueCondition.java:40-58 | the whole condition matches exactly when the value looked up under the trimmed prefix is absent with `defaultValue` set, or present and equal to `value` up to letter case |
| `OnPropertyValueCondition.AbsentWithDefaultMatches` | spring-boot-autoconfigure/src/main/java/org/springframework/boot/autoconfigure/condition/OnPropertyValueCondition.java:50-52 | an absent property with `defaultValue` true matches, and the message names the property and the assumed default value |
| `OnPropertyValueCondition.AbsentWithoutDefaultNeverMatches` | spring-boot-autoconfigure/src/main/java/org/springframework/boot/autoconfigure/condition/OnPropertyValueCondition.java:54-56 | an absent property with `defaultValue` false never matches, and the message gives the expected value and "but got 'null'" |
| `OnPropertyValueCondition.PresentEqualIgnoringCaseMatches` | spring-boot-autoconfigure/src/main/java/org/springframework/boot/autoconfigure/condition/OnPropertyValueCondition.java:54-58 | a present value equal to `value` ignoring case yields the plain match outcome, whatever `defaultValue` is |
| `OnPropertyValueCondition.UpperCaseTrueMatchesTrue` | spring-boot-autoconfigure/src/main/java/org/springframework/boot/autoconfigure/condition/OnPropertyValueCondition.java:54-58 | a property set to "TRUE" satisfies an expected value "true" |
| `OnPropertyValueCondition.PresentDifferentMismatches` | spring-boot-autoconfigure/src/main/java/org/springframework/boot/autoconfigure/condition/OnPropertyValueCondition.java:54-56 | a present value that differs from `value` ignoring case does not match, and the message contains "expected '<value>'" and "but got '<actual>'" |
| `OnPropertyValueCondition.FalseDoesNotMatchTrue` | spring-boot-autoconfigure/src/main/java/org/springframework/boot/autoconfigure/condition/OnPropertyValueCondition.java:54-56 | a property set to "false" fails an expected value "true", with "expected 'true'" and "but got 'false'" in the message |
| `OnPropertyValueCondition.WrongValueMentionsBoth` | spring-boot-autoconfigure/src/main/java/org/springframework/boot/autoconfigure/condition/OnPropertyValueCondition.java:55-56 | the no-match message contains the expected value and the value got, rendered "null" when absent |
| `OnPropertyValueCondition.DefaultIgnoredWhenPresent` | spring-boot-autoconfigure/src/main/java/org/springframework/boot/autoconfigure/condition/OnPropertyValueCondition.java:50 | once the property is present, `defaultValue` true and false give the same outcome, message included |
| `OnPropertyValueCondition.ActualCaseIrrelevant` | spring-boot-autoconfigure/src/main/java/org/springframework/boot/autoconfigure/condition/OnPropertyValueCondition.java:54 | upper-casing or lower-casing the configured value never changes whether the condition matches |
| `OnPropertyValueCondition.CaseVariantSameMatch` | spring-boot-autoconfigure/src/main/java/org/springframework/boot/autoconfigure/condition/OnPropertyValueCondition.java:54 | two configured values that differ only in letter case (same lower-case fold), such as "TrUe" and "true", always decide alike |
| `OnPropertyValueCondition.MixedCaseTrueMatchesTrue` | spring-boot-autoconfigure/src/main/java/org/springframework/boot/autoconfigure/condition/OnPropertyValueCondition.java:54-58 | a property set to the mixed-case "TrUe" satisfies an expected value "true" |
| `OnPropertyValueCondition.ValueAndActualSymmetric` | spring-boot-autoconfigure/src/main/java/org/springframework/boot/autoconfigure/condition/OnPropertyValueCondition.java:54 | swapping the expected and the configured value never changes whether the condition matches |
| `OnPropertyValueCondition.PrefixSeenTrimmed` | spring-boot-autoconfigure/src/main/java/org/springframework/boot/autoconfigure/condition/OnPropertyValueCondition.java:40-48 | the outcome for a prefix is the outcome for its trimmed form |
| `OnPropertyValueCondition.PaddedPrefixSameOutcome` | spring-boot-autoconfigure/src/main/java/org/springframework/boot/autoconfigure/condition/OnPropertyValueCondition.java:40-48 | padding any prefix with characters up to U+0020 on either side gives the same outcome as the prefix itself |
| `OnPropertyValueCondition.RelaxedNameOnlyAffectsLookup` | spring-boot-autoconfigure/src/main/java/org/springframework/boot/autoconfigure/condition/OnPropertyValueCondition.java:42-48 | `relaxedName` only reaches the key lookup: when both lookups return the same value the outcomes are equal |

## Left out

- Reading the attributes from `AnnotatedTypeMetadata` (lines 38-44): they are the fields of `Attributes`, passed in directly.
- `PropertyHelper` key construction and relaxed-name handling, and the environment's property resolver (lines 46-48): `PropertyHelper` is not part of this model, so key building and resolution together are the `Lookup` function parameter, given the trimmed prefix, `relaxedName` and the property name.
- `SpringBootCondition` logging and reporting and the `ConditionOutcome` class: only the (matched, message) pair is kept. `ConditionOutcome` is not part of this model, so the message of the argument-less `ConditionOutcome.match()` (line 58) is modelled as the empty string.
- The null-unboxing of a missing `defaultValue` (line 50) and a null `value` receiver (line 54) would throw at run time; both are non-null by construction here (`bool`, `string`), so those exceptions are not modelled.
- `JavaString.EqualsIgnoreCase`: Java folds case over all of Unicode; the model folds only the ASCII letters A-Z/a-z and treats every other character as having no case.
- `JavaString.CharsMatchIffSameFold`: the equivalence between Java's per-character test and equal lower-case forms holds only for the model's ASCII fold; in Java it fails for characters such as U+0131 (dotless i) or U+017F (long s), which match "i" and "s" through their common upper-case form while their lower-case forms differ. `JavaString.EqualsIgnoreCase`, `OnPropertyValueCondition.Evaluate` and `OnPropertyValueCondition.GetMatchOutcome` state their results through that equivalence and so speak for the ASCII fold only.
- `JavaString.EqualsIgnoreCaseIgnoresArgumentCase` and `OnPropertyValueCondition.ActualCaseIrrelevant`: the case changes considered are the model's ASCII `UpperCase` and `LowerCase`, not Java's locale-dependent `toUpperCase`/`toLowerCase`.
