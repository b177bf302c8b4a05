/** The rules by which a submitted value is checked against the choice list
    that a Scriptler script produced.

    A choice is a Java object that may be null; the rules only ever look at
    its `toString()` image, so a choice is represented here by that image:
    `None` for null, `Some(s)` for an object whose `toString()` is `s`. */
module ChoiceRules {
  import opened StringSplit

  datatype Option<+T> = None | Some(value: T)

  /** The separator of sub-values in a multi-valued submission. */
  const Comma: char := ','

  /** `ObjectUtils.toString(Object)`: the empty string for null, otherwise
      the object's `toString()`. */
  function ObjectToString(o: Option<string>): string
  {
    match o
    case None => ""
    case Some(s) => s
  }

  /** `ObjectUtils.toString(Object, String nullStr)`: `nullStr` for null,
      otherwise the object's `toString()`. */
  function ObjectToStringOr(o: Option<string>, nullStr: Option<string>): Option<string>
  {
    match o
    case None => nullStr
    case Some(s) => Some(s)
  }

  /** Every choice stringified with `ObjectToString`, in order. */
  function Stringified(choices: seq<Option<string>>): seq<string>
  {
    seq(|choices|, i requires 0 <= i < |choices| => ObjectToString(choices[i]))
  }

  /** `List.containsAll`: every element of `values` occurs in `list`. */
  predicate ContainsAll(list: seq<string>, values: seq<string>)
  {
    forall v :: v in values ==> v in list
  }

  /** The decision of `checkActualValue`: the comma-separated sub-values of
      the submission are all among the stringified choices. */
  predicate Accepts(actualValue: string, choices: seq<Option<string>>)
  {
    ContainsAll(Stringified(choices), Split(actualValue, Comma))
  }

  /** A submission is accepted exactly when each of its sub-values is the
      `toString()` of some non-null choice. A null choice, whose stringified
      form is the empty string, never matches, because no sub-value is empty. */
  lemma AcceptsIff(actualValue: string, choices: seq<Option<string>>)
    ensures Accepts(actualValue, choices) <==>
      forall t :: t in Split(actualValue, Comma) ==> Some(t) in choices
  {
    var sc := Stringified(choices);
    forall t | t in Split(actualValue, Comma)
      ensures t in sc <==> Some(t) in choices
    {
      if t in sc {
        var i :| 0 <= i < |sc| && sc[i] == t;
        assert choices[i] == Some(t);
      }
      if Some(t) in choices {
        var i :| 0 <= i < |choices| && choices[i] == Some(t);
        assert sc[i] == t;
      }
    }
  }

  /** A submission made of commas only, the empty submission among them,
      has no sub-values and is accepted whatever the choices are. */
  lemma AcceptsBlank(actualValue: string, choices: seq<Option<string>>)
    requires forall i :: 0 <= i < |actualValue| ==> actualValue[i] == Comma
    ensures Accepts(actualValue, choices)
  {
    SplitEmptyIff(actualValue, Comma);
  }

  /** Two submissions joined by a comma are accepted exactly when both are. */
  lemma AcceptsJoined(a: string, b: string, choices: seq<Option<string>>)
    ensures Accepts(a + [Comma] + b, choices) <==> Accepts(a, choices) && Accepts(b, choices)
  {
    SplitSeparated(a, Comma, b);
  }

  /** The order of sub-values does not matter. */
  lemma AcceptsCommutes(a: string, b: string, choices: seq<Option<string>>)
    ensures Accepts(a + [Comma] + b, choices) <==> Accepts(b + [Comma] + a, choices)
  {
    AcceptsJoined(a, b, choices);
    AcceptsJoined(b, a, choices);
  }

  /** Repeating a sub-value does not matter. */
  lemma AcceptsRepeated(a: string, choices: seq<Option<string>>)
    ensures Accepts(a + [Comma] + a, choices) <==> Accepts(a, choices)
  {
    AcceptsJoined(a, a, choices);
  }

  /** Order and repetition of sub-values do not matter: submissions with
      the same set of sub-values get the same decision. */
  lemma AcceptsSameTokens(a: string, b: string, choices: seq<Option<string>>)
    requires forall t :: t in Split(a, Comma) <==> t in Split(b, Comma)
    ensures Accepts(a, choices) <==> Accepts(b, choices)
  {
    AcceptsIff(a, choices);
    AcceptsIff(b, choices);
  }

  /** Monotonicity: a submission accepted against some choices is accepted
      against any list that holds at least those choices. */
  lemma AcceptsMonotone(actualValue: string, choices: seq<Option<string>>, more: seq<Option<string>>)
    requires forall c :: c in choices ==> c in more
    requires Accepts(actualValue, choices)
    ensures Accepts(actualValue, more)
  {
    AcceptsIff(actualValue, choices);
    AcceptsIff(actualValue, more);
  }

  /** Null choices have no effect on the decision. */
  lemma AcceptsIgnoresNullChoice(actualValue: string, choices: seq<Option<string>>, k: nat)
    requires k <= |choices|
    ensures Accepts(actualValue, choices[..k] + [None] + choices[k..]) <==> Accepts(actualValue, choices)
  {
    var with := choices[..k] + [None] + choices[k..];
    AcceptsIff(actualValue, choices);
    AcceptsIff(actualValue, with);
    assert forall c :: c in with <==> c == None || c in choices by {
      assert choices == choices[..k] + choices[k..];
    }
  }

  /** A multi-select submission, the selected values joined with commas, is
      accepted exactly when every selected value is a non-null choice (when
      no selected value is empty or contains a comma). */
  lemma AcceptsSelection(selected: seq<string>, choices: seq<Option<string>>)
    requires forall t :: t in selected ==> IsToken(t, Comma)
    ensures Accepts(Join(selected, Comma), choices) <==> forall t :: t in selected ==> Some(t) in choices
  {
    SplitJoin(selected, Comma);
    AcceptsIff(Join(selected, Comma), choices);
  }

  /** A submission holding one comma-free sub-value that is no choice is rejected. */
  lemma RejectsUnknown(t: string, choices: seq<Option<string>>)
    requires IsToken(t, Comma) && Some(t) !in choices
    ensures !Accepts(t, choices)
  {
    SplitToken(t, Comma);
    AcceptsIff(t, choices);
  }

  /** With the choices `a`, `b`, `c`, the submission `b,c` is accepted and
      `b,d` is rejected. */
  lemma AcceptsExample()
    ensures Accepts("b,c", [Some("a"), Some("b"), Some("c")])
    ensures !Accepts("b,d", [Some("a"), Some("b"), Some("c")])
  {
    var choices := [Some("a"), Some("b"), Some("c")];
    assert Join(["b", "c"], Comma) == "b,c";
    assert Join(["b", "d"], Comma) == "b,d";
    AcceptsSelection(["b", "c"], choices);
    AcceptsSelection(["b", "d"], choices);
    assert Some("d") !in choices;
  }
}
