# Scriptler choice parameter

A model of `ScriptlerChoiceParameterDefinition`, the Jenkins build parameter
whose list of valid values is produced by a Scriptler script. Three rules sit
under the Jenkins and Scriptler glue, and the model proves them:

- **Default value.** The default is a `StringParameterValue` named after the
  parameter. It carries the first choice's `toString()`. Its payload is null
  when the list is empty or its first element is null.
- **Validation.** A submitted value is split on `,` with the semantics of
  Commons Lang `StringUtils.split`, so empty sub-values disappear. It is
  accepted when every sub-value equals the `toString()` of some choice, with
  a null choice read as `""`. An accepted submission comes back unchanged. A
  rejected one fails with `IllegalArgumentException("Illegal choice: " + value)`.
- **Visible item count.** The number of choices, capped at
  `DEFAULT_MAX_VISIBLE_ITEM_COUNT`.

The definition is a class. Its only mutable field is `choiceType`. The
`readonlyInputField` flag and the fields handed to the base class are `const`s.

Layout:

- `string_split.dfy` (module `StringSplit`): `StringUtils.split` for one
  separator character. It comes with its laws: every token is non-empty and
  separator-free, a separator cuts the input cleanly, the input splits to
  nothing exactly when it is all separators, join-then-split is the identity,
  and the tokens concatenated are the input without its separators.
- `choice_rules.dfy` (module `ChoiceRules`): `ObjectUtils.toString` in both
  forms, `List.containsAll`, and the acceptance predicate `Accepts`. Also the
  laws of `Accepts`: vacuous on blank input, independent of order and
  repetition, monotone in the choices, blind to null choices, and exact on
  joined multi-select submissions.
- `scriptler_choice.dfy` (module `ScriptlerChoice`): the class, its
  operations, and the lemmas that relate the default value to validation.

A choice is a Java object that may be null. The model only ever uses the
object's `toString()`, so a choice is represented by that string: `None`
stands for null and `Some(s)` for an object whose `toString()` is `s`. A
non-null object whose `toString()` returns null is also `None`. For the default
value both give a null payload. In validation the source keeps such a null in
its list of stringified choices where the model keeps `""`, and neither can
equal a sub-value, because sub-values are never empty.

## Model

| member | source | states |
|---|---|---|
| `StringSplit.SplitFrom` | src/main/java/com/seitenbau/jenkins/plugins/dynamicparameter/scriptler/ScriptlerChoiceParameterDefinition.java:113 | every token produced by the split scan is non-empty and free of the separator |
| `StringSplit.Split` | src/main/java/com/seitenbau/jenkins/plugins/dynamicparameter/scriptler/ScriptlerChoiceParameterDefinition.java:113 | `StringUtils.split` never yields an empty or separator-containing sub-value |
| `StringSplit.SplitSeparated` | src/main/java/com/seitenbau/jenkins/plugins/dynamicparameter/scriptler/ScriptlerChoiceParameterDefinition.java:113 | the sub-values of `a + "," + b` are those of `a` followed by those of `b` |
| `StringSplit.SplitEmptyIff` | src/main/java/com/seitenbau/jenkins/plugins/dynamicparameter/scriptler/ScriptlerChoiceParameterDefinition.java:113 | a value splits into no sub-values if and only if it consists of commas only (the empty string included) |
| `StringSplit.SplitToken` | src/main/java/com/seitenbau/jenkins/plugins/dynamicparameter/scriptler/ScriptlerChoiceParameterDefinition.java:113 | a non-empty comma-free value splits into exactly itself |
| `StringSplit.SplitJoin` | src/main/java/com/seitenbau/jenkins/plugins/dynamicparameter/scriptler/ScriptlerChoiceParameterDefinition.java:113 | round trip: well-formed sub-values joined with commas split back into the same sequence |
| `StringSplit.SplitContent` | src/main/java/com/seitenbau/jenkins/plugins/dynamicparameter/scriptler/ScriptlerChoiceParameterDefinition.java:113 | the sub-values, concatenated in order, are the submission with its commas removed |
| `ChoiceRules.AcceptsIff` | src/main/java/com/seitenbau/jenkins/plugins/dynamicparameter/scriptler/ScriptlerChoiceParameterDefinition.java:111-124 | the `containsAll` test holds iff every sub-value equals the `toString()` of some non-null choice (both directions) |
| `ChoiceRules.AcceptsBlank` | src/main/java/com/seitenbau/jenkins/plugins/dynamicparameter/scriptler/ScriptlerChoiceParameterDefinition.java:101-122 | an empty submission, a null one (read as `""`) and one made of commas only are accepted whatever the choices |
| `ChoiceRules.AcceptsJoined` | src/main/java/com/seitenbau/jenkins/plugins/dynamicparameter/scriptler/ScriptlerChoiceParameterDefinition.java:113-122 | `a + "," + b` is accepted iff both `a` and `b` are |
| `ChoiceRules.AcceptsCommutes` | src/main/java/com/seitenbau/jenkins/plugins/dynamicparameter/scriptler/ScriptlerChoiceParameterDefinition.java:113-122 | the order of sub-values does not affect acceptance |
| `ChoiceRules.AcceptsRepeated` | src/main/java/com/seitenbau/jenkins/plugins/dynamicparameter/scriptler/ScriptlerChoiceParameterDefinition.java:113-122 | repeating a sub-value does not affect acceptance |
| `ChoiceRules.AcceptsSameTokens` | src/main/java/com/seitenbau/jenkins/plugins/dynamicparameter/scriptler/ScriptlerChoiceParameterDefinition.java:113-122 | two submissions whose sub-values form the same set get the same decision, so validation ignores the order and repetition of sub-values |
| `ChoiceRules.AcceptsMonotone` | src/main/java/com/seitenbau/jenkins/plugins/dynamicparameter/scriptler/ScriptlerChoiceParameterDefinition.java:113-122 | a submission accepted against some choices is accepted against any superset of them |
| `ChoiceRules.AcceptsIgnoresNullChoice` | src/main/java/com/seitenbau/jenkins/plugins/dynamicparameter/scriptler/ScriptlerChoiceParameterDefinition.java:117-122 | inserting a null choice anywhere does not change any decision, since no sub-value is `""` |
| `ChoiceRules.AcceptsSelection` | src/main/java/com/seitenbau/jenkins/plugins/dynamicparameter/scriptler/ScriptlerChoiceParameterDefinition.java:111-124 | when no selected value is empty or contains a comma, the selected values joined with commas are accepted iff each one is a non-null choice |
| `ChoiceRules.RejectsUnknown` | src/main/java/com/seitenbau/jenkins/plugins/dynamicparameter/scriptler/ScriptlerChoiceParameterDefinition.java:111-124 | a single comma-free sub-value that is no choice is rejected |
| `ChoiceRules.AcceptsExample` | src/main/java/com/seitenbau/jenkins/plugins/dynamicparameter/scriptler/ScriptlerChoiceParameterDefinition.java:111-124 | with choices `a`, `b`, `c`: `b,c` is accepted and `b,d` is rejected |
| `ScriptlerChoice.ScriptlerChoiceParameterDefinition.constructor` | src/main/java/com/seitenbau/jenkins/plugins/dynamicparameter/scriptler/ScriptlerChoiceParameterDefinition.java:58-64 | every field holds its argument; `isReadonlyInputField` and `getChoiceType` return the given flag and type |
| `ScriptlerChoice.ScriptlerChoiceParameterDefinition.SetChoiceType` | src/main/java/com/seitenbau/jenkins/plugins/dynamicparameter/scriptler/ScriptlerChoiceParameterDefinition.java:126-139 | afterwards `getChoiceType` returns the new type; only `choiceType` may change, so `readonlyInputField` keeps its constructor value |
| `ScriptlerChoice.ScriptlerChoiceParameterDefinition.GetDefaultParameterValue` | src/main/java/com/seitenbau/jenkins/plugins/dynamicparameter/scriptler/ScriptlerChoiceParameterDefinition.java:70-80 | the default is named after the parameter; its payload is the first choice's `toString()`, and null for an empty list or a null first choice |
| `ScriptlerChoice.ScriptlerChoiceParameterDefinition.CheckActualValue` | src/main/java/com/seitenbau/jenkins/plugins/dynamicparameter/scriptler/ScriptlerChoiceParameterDefinition.java:111-124 | the loop that stringifies the choices, followed by `containsAll`, decides exactly `Accepts` |
| `ScriptlerChoice.ScriptlerChoiceParameterDefinition.CheckParameterValue` | src/main/java/com/seitenbau/jenkins/plugins/dynamicparameter/scriptler/ScriptlerChoiceParameterDefinition.java:99-109 | success iff the value (null read as `""`) is accepted; success returns the very same parameter; failure carries `"Illegal choice: " + value` |
| `ScriptlerChoice.ScriptlerChoiceParameterDefinition.GetVisibleItemCount` | src/main/java/com/seitenbau/jenkins/plugins/dynamicparameter/scriptler/ScriptlerChoiceParameterDefinition.java:141-151 | the count is `min(choice count, cap)`: at most each of the two, and equal to one of them |
| `ScriptlerChoice.VisibleItemCountBounds` | src/main/java/com/seitenbau/jenkins/plugins/dynamicparameter/scriptler/ScriptlerChoiceParameterDefinition.java:141-151 | with a positive cap the count is non-negative, zero iff there are no choices, and the choice count below the cap |
| `ScriptlerChoice.DefaultIsAccepted` | src/main/java/com/seitenbau/jenkins/plugins/dynamicparameter/scriptler/ScriptlerChoiceParameterDefinition.java:70-124 | the default value passes validation when the first choice is null or its `toString()` has no comma |
| `ScriptlerChoice.DefaultWithCommaRejected` | src/main/java/com/seitenbau/jenkins/plugins/dynamicparameter/scriptler/ScriptlerChoiceParameterDefinition.java:70-124 | with the single choice `a,b` the default is `a,b`, and validation rejects it |

## Left out

- Script execution (`getScriptResultAsList` in the base class `ScriptlerParameterDefinition`, the Scriptler registry, remote execution). The base class is not part of this model. Every operation takes the choice list as an argument instead.
- Re-running the script between calls. `getChoices()` runs the script on every call, and `getDefaultParameterValue` calls it up to three times. The model gives each operation one fixed list, because the variation of a live script cannot be modelled.
- `DEFAULT_MAX_VISIBLE_ITEM_COUNT` is defined in `ChoiceParameterDefinition`, which is not part of this model. `GetVisibleItemCount` takes it as the argument `maxVisible`.
- Arbitrary `Object.toString()` behaviour: a choice is represented by its `toString()` image, which is all the class ever uses of it.
- `DescriptorImpl`: the localised display name and the list of registered Scriptler scripts are UI and registry plumbing.
- Jenkins types, Java serialization and `@DataBoundConstructor` binding. A parameter value is a name and an optional string. The thrown `IllegalArgumentException` is a `Failure` result.
- `StringUtils.split` is modelled for the one separator `,` used here, not for general separator sets or a null input. A null input cannot reach it, because `ObjectUtils.toString` has already turned null into `""`.
