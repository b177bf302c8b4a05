/** A choice parameter whose valid values are the result of a Scriptler
    script (`ScriptlerChoiceParameterDefinition`).

    The script runs on every `getChoices()` call. Each operation below takes
    the list that call produced as its `choices` argument, so one operation
    sees one fixed list. */
module ScriptlerChoice {
  import opened ChoiceRules
  import StringSplit

  /** A name/value pair bound into the script's context. */
  datatype ScriptParameter = ScriptParameter(name: string, value: string)

  /** A `StringParameterValue`: a parameter name and a payload that may be null. */
  datatype ParameterValue = StringParameterValue(name: string, value: Option<string>)

  /** The `IllegalArgumentException` raised for a rejected submission. */
  datatype Error = IllegalArgument(message: string)

  datatype Result<+T> = Success(value: T) | Failure(error: Error)

  class ScriptlerChoiceParameterDefinition {
    const name: string
    const description: string
    const uuid: Option<string>
    const scriptlerScriptId: string
    const parameters: seq<ScriptParameter>
    const remote: bool
    const readonlyInputField: bool
    /** How the choices are displayed (single select, multi select, ...);
        the only field that changes after construction. */
    var choiceType: Option<string>

    constructor (name: string, description: string, uuid: Option<string>, scriptlerScriptId: string,
                 parameters: seq<ScriptParameter>, remote: bool, readonlyInputField: bool,
                 choiceType: Option<string>)
      ensures this.name == name && this.description == description && this.uuid == uuid
      ensures this.scriptlerScriptId == scriptlerScriptId && this.parameters == parameters
      ensures this.remote == remote
      ensures IsReadonlyInputField() == readonlyInputField
      ensures GetChoiceType() == choiceType
    {
      this.name := name;
      this.description := description;
      this.uuid := uuid;
      this.scriptlerScriptId := scriptlerScriptId;
      this.parameters := parameters;
      this.remote := remote;
      this.readonlyInputField := readonlyInputField;
      this.choiceType := choiceType;
    }

    function IsReadonlyInputField(): bool
    {
      readonlyInputField
    }

    function GetChoiceType(): Option<string>
      reads this
    {
      choiceType
    }

    /** Replaces the choice type. Every other field is a `const`, and the
        frame admits no other change. */
    method SetChoiceType(choiceType: Option<string>)
      modifies this`choiceType
      ensures GetChoiceType() == choiceType
    {
      this.choiceType := choiceType;
    }

    /** The value a build gets when none is submitted: named after the
        parameter, carrying the first choice's `toString()`, or no payload
        when the list is empty or its first element is null. */
    function GetDefaultParameterValue(choices: seq<Option<string>>): (v: ParameterValue)
      ensures v.name == name
      ensures choices == [] ==> v.value == None
      ensures choices != [] ==> v.value == choices[0]
    {
      var firstElement := if |choices| > 0 then choices[0] else None;
      StringParameterValue(name, ObjectToStringOr(firstElement, None))
    }

    /** Whether every comma-separated sub-value of `actualValue` is the
        stringified form of one of the choices. */
    method CheckActualValue(actualValue: string, choices: seq<Option<string>>) returns (result: bool)
      ensures result <==> Accepts(actualValue, choices)
    {
      var values := StringSplit.Split(actualValue, Comma);
      var stringChoices: seq<string> := [];
      for i := 0 to |choices|
        invariant |stringChoices| == i
        invariant forall k :: 0 <= k < i ==> stringChoices[k] == ObjectToString(choices[k])
      {
        stringChoices := stringChoices + [ObjectToString(choices[i])];
      }
      assert stringChoices == Stringified(choices);
      result := ContainsAll(stringChoices, values);
    }

    /** Returns the submitted parameter itself when its value (a null value
        read as the empty string) is accepted, and otherwise fails with the
        message "Illegal choice: " followed by that value. */
    method CheckParameterValue(parameter: ParameterValue, choices: seq<Option<string>>)
      returns (r: Result<ParameterValue>)
      ensures r.Success? <==> Accepts(ObjectToString(parameter.value), choices)
      ensures r.Success? ==> r.value == parameter
      ensures r.Failure? ==> r.error == IllegalArgument("Illegal choice: " + ObjectToString(parameter.value))
    {
      var actualValue := ObjectToString(parameter.value);
      var ok := CheckActualValue(actualValue, choices);
      if ok {
        return Success(parameter);
      }
      return Failure(IllegalArgument("Illegal choice: " + actualValue));
    }

    /** How many list rows to show: the number of choices, capped at
        `maxVisible` (`DEFAULT_MAX_VISIBLE_ITEM_COUNT`). */
    function GetVisibleItemCount(choices: seq<Option<string>>, maxVisible: int): (count: int)
      ensures count <= |choices| && count <= maxVisible
      ensures count == |choices| || count == maxVisible
    {
      var choicesCount := |choices|;
      if choicesCount < maxVisible then choicesCount else maxVisible
    }
  }

  /** The default value passes validation whenever the first choice is null or
      its `toString()` holds no comma. The default and the validation each
      run the script; the lemma assumes both runs return the same list. */
  lemma DefaultIsAccepted(d: ScriptlerChoiceParameterDefinition, choices: seq<Option<string>>)
    requires choices == [] || choices[0] == None || Comma !in choices[0].value
    ensures Accepts(ObjectToString(d.GetDefaultParameterValue(choices).value), choices)
  {
    var actualValue := ObjectToString(d.GetDefaultParameterValue(choices).value);
    if actualValue == "" {
      AcceptsBlank(actualValue, choices);
    } else {
      StringSplit.SplitToken(actualValue, Comma);
      AcceptsIff(actualValue, choices);
    }
  }

  /** A first choice whose `toString()` holds a comma gives a default that
      validation may reject: with the single choice `a,b` the default `a,b`
      splits into `a` and `b`, neither of which is a choice. */
  lemma DefaultWithCommaRejected(d: ScriptlerChoiceParameterDefinition)
    ensures d.GetDefaultParameterValue([Some("a,b")]).value == Some("a,b")
    ensures !Accepts("a,b", [Some("a,b")])
  {
    assert StringSplit.Join(["a", "b"], Comma) == "a,b";
    AcceptsSelection(["a", "b"], [Some("a,b")]);
    assert Some("a") != Some("a,b");
  }

  /** With a positive cap, the count is positive exactly when there is a
      choice, and below the cap it is the number of choices. */
  lemma VisibleItemCountBounds(d: ScriptlerChoiceParameterDefinition, choices: seq<Option<string>>, maxVisible: int)
    requires maxVisible > 0
    ensures 0 <= d.GetVisibleItemCount(choices, maxVisible)
    ensures d.GetVisibleItemCount(choices, maxVisible) == 0 <==> choices == []
    ensures |choices| < maxVisible ==> d.GetVisibleItemCount(choices, maxVisible) == |choices|
  {
  }
}
