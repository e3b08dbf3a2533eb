/** The `Simpleform` stepper: a form built from an already parsed definition,
    its element tree, the names of its visible steps and a cursor over them. */
module Simpleform {
  import opened PhpValues
  import opened DrupalElements
  import opened KeyNormalizer
  import opened Steps
  import Actions

  /** The `elements` entry of a definition as the constructor stores it:
      normalised in place when it is set, NULL when it is missing. */
  method NormalizedElements(formDefinition: seq<Entry>) returns (elements: Value)
    requires Normalizable(Lookup(Arr(formDefinition), "elements"))
    ensures elements == Drupalized(Lookup(Arr(formDefinition), "elements"))
    ensures WellKeyed(elements)
  {
    elements := Lookup(Arr(formDefinition), "elements");
    DrupalizedUniqueKeys(elements);
    if elements != Null {
      elements := DrupalizeElements(elements);
    } else {
      assert Drupalized(elements) == elements;
    }
  }

  class Simpleform {
    var name: string
    var formLabel: Value
    var description: Value
    var settings: Value
    var confirmationMessage: Value
    var elements: Value
    var stepNames: seq<string>
    /** Public in the source and never clamped: it may leave `0 .. |stepNames| - 1`. */
    var currentStep: int

    /** `stepNames` is what `revisitSteps` derives from `elements`, and the
        top level of `elements` never holds a key twice. */
    ghost predicate Valid()
      reads this`stepNames, this`elements
    {
      stepNames == VisibleSteps(elements) && WellKeyed(elements)
    }

    /** `__construct($name, $formDefinition)`: normalise the `elements`
        entry, copy the other entries (an empty description or settings
        becomes NULL), derive the steps and start on step 0. */
    constructor(name: string, formDefinition: seq<Entry>)
      requires Normalizable(Lookup(Arr(formDefinition), "elements"))
      ensures this.name == name
      ensures formLabel == Lookup(Arr(formDefinition), "label")
      ensures var d := Lookup(Arr(formDefinition), "description"); description == if Truthy(d) then d else Null
      ensures var s := Lookup(Arr(formDefinition), "settings"); settings == if Truthy(s) then s else Null
      ensures confirmationMessage == Lookup(Arr(formDefinition), "confirmation_message")
      ensures elements == Drupalized(Lookup(Arr(formDefinition), "elements"))
      ensures Valid() && stepNames == VisibleSteps(elements)
      ensures currentStep == 0
    {
      var definition := Arr(formDefinition);
      var els := NormalizedElements(formDefinition);
      this.name := name;
      formLabel := Lookup(definition, "label");
      var d := Lookup(definition, "description");
      description := if Truthy(d) then d else Null;
      var s := Lookup(definition, "settings");
      settings := if Truthy(s) then s else Null;
      confirmationMessage := Lookup(definition, "confirmation_message");
      elements := els;
      stepNames := [];
      currentStep := 0;
      new;
      label copied:
      RevisitSteps();
      SetCurrentStep(0);
      assert unchanged@copied(this`formLabel, this`description, this`settings, this`confirmationMessage, this`name, this`elements);
    }

    /** `revisitSteps()`: rebuild the step names from the top-level children
        in order. Running it twice in a row changes nothing the second time. */
    method RevisitSteps()
      modifies this`stepNames
      ensures stepNames == VisibleSteps(elements)
      ensures WellKeyed(elements) ==> Valid()
      ensures old(Valid()) ==> stepNames == old(stepNames)
    {
      stepNames := [];
      var kids := ElementChildren(elements);
      for i := 0 to |kids|
        invariant stepNames == StepsAmong(elements, kids[..i])
      {
        var elementKey := kids[i];
        var stepElement := Lookup(elements, elementKey);
        var access := Lookup(stepElement, "#access");
        var elementIsVisible := access == Null || Truthy(access);
        assert kids[..i + 1][..i] == kids[..i];
        if IsStepType(Lookup(stepElement, "#type")) && elementIsVisible {
          stepNames := stepNames + [elementKey];
        }
      }
      assert kids[..|kids|] == kids;
    }

    /** `hideStep($stepName)`: set the step's `#access` to FALSE and rederive
        the steps, which drops that name and keeps the others in order. */
    method HideStep(stepName: string)
      modifies this`elements, this`stepNames
      ensures elements == WithAccess(old(elements), stepName, false)
      ensures stepNames == Without(VisibleSteps(old(elements)), stepName)
      ensures old(Valid()) ==> Valid() && stepNames == Without(old(stepNames), stepName)
      ensures stepName !in stepNames
    {
      if WellKeyed(elements) {
        WithAccessWellKeyed(elements, stepName, false);
      }
      HideStepRemoves(elements, stepName);
      elements := WithAccess(elements, stepName, false);
      RevisitSteps();
    }

    /** `showStep($stepName)`: set the step's `#access` to TRUE and rederive
        the steps; the name is listed exactly when it is a top-level step. */
    method ShowStep(stepName: string)
      modifies this`elements, this`stepNames
      ensures elements == WithAccess(old(elements), stepName, true)
      ensures stepNames == VisibleSteps(elements)
      ensures old(Valid()) ==> Valid()
      ensures forall k :: k != stepName ==> (k in stepNames <==> k in VisibleSteps(old(elements)))
      ensures stepName in stepNames <==>
                old(elements).Arr? && stepName in Keys(old(elements).entries) && IsChildKey(stepName)
                && IsStep(Lookup(old(elements), stepName))
    {
      if WellKeyed(elements) {
        WithAccessWellKeyed(elements, stepName, true);
      }
      ShowStepAdds(elements, stepName);
      elements := WithAccess(elements, stepName, true);
      RevisitSteps();
    }

    /** `setCurrentStep($step)`. */
    method SetCurrentStep(step: int)
      modifies this`currentStep
      ensures currentStep == step
    {
      currentStep := step;
    }

    /** `goToNextStep()`: one step on, with no upper bound. */
    method GoToNextStep()
      modifies this`currentStep
      ensures currentStep == old(currentStep) + 1
    {
      SetCurrentStep(currentStep + 1);
    }

    /** `goToPrevStep()`: one step back, with no lower bound. */
    method GoToPrevStep()
      modifies this`currentStep
      ensures currentStep == old(currentStep) - 1
    {
      SetCurrentStep(currentStep - 1);
    }

    /** `getStepName($stepIndex)`: the name at the index (the cursor when no
        index is given), or NULL when the index is out of range. */
    function StepName(stepIndex: Option<int>): (r: Option<string>)
      reads this`stepNames, this`currentStep
      ensures var i := if stepIndex.None? then currentStep else stepIndex.value;
              (r.Some? <==> 0 <= i < |stepNames|) && (r.Some? ==> r.value == stepNames[i])
      ensures r.Some? ==> r.value in stepNames
    {
      var i := if stepIndex.None? then currentStep else stepIndex.value;
      if 0 <= i < |stepNames| then Some(stepNames[i]) else None
    }

    /** `getCurrentStepName()`: the name under the cursor, if any. */
    function CurrentStepName(): (r: Option<string>)
      reads this`stepNames, this`currentStep
      ensures r.Some? <==> 0 <= currentStep < |stepNames|
      ensures r.Some? ==> r.value == stepNames[currentStep]
    {
      StepName(None)
    }

    /** `isFirstStep()`: the cursor is at 0, where the first name is. */
    function IsFirstStep(): (r: bool)
      reads this`currentStep, this`stepNames
      ensures r <==> currentStep == 0
      ensures r ==> CurrentStepName() == if stepNames == [] then None else Some(stepNames[0])
    {
      currentStep == 0
    }

    /** `isLastStep()`: the cursor is at `count($stepNames) - 1`, where the
        last name is; with no steps that is index -1, which names nothing. */
    function IsLastStep(): (r: bool)
      reads this`currentStep, this`stepNames
      ensures r <==> currentStep == |stepNames| - 1
      ensures r ==> CurrentStepName() == if stepNames == [] then None else Some(stepNames[|stepNames| - 1])
    {
      currentStep == |stepNames| - 1
    }

    /** `getActions()`: 'back' off the first step, 'submit' on the last step
        and 'next' before it, each an accessible submit button. */
    function GetActions(): (r: seq<Entry>)
      reads this`currentStep, this`stepNames
      ensures "back" in Keys(r) <==> currentStep != 0
      ensures "submit" in Keys(r) <==> currentStep == |stepNames| - 1
      ensures "next" in Keys(r) <==> currentStep != |stepNames| - 1
      ensures UniqueKeys(r)
      ensures forall e :: e in r ==> Actions.IsButton(e.val, true)
    {
      Actions.GetActionsKeys(IsFirstStep(), IsLastStep());
      Actions.GetActionsAccessible(IsFirstStep(), IsLastStep());
      Actions.GetActions(IsFirstStep(), IsLastStep())
    }

    /** The step `getElementsOnStep` puts on show: the resolved name, unless
        it is missing or a falsy string. */
    function ShownStep(stepIndex: Option<int>): Option<string>
      reads this`stepNames, this`currentStep
    {
      var n := StepName(stepIndex);
      if n.Some? && Truthy(Str(n.value)) then n else None
    }

    /** `getElementsOnStep($stepIndex)`: a copy of the tree in which every
        other step is switched off and every other child switched on, or an
        empty array when the index names no usable step or the tree is not
        an array. `elements` itself is left as it is. */
    method GetElementsOnStep(stepIndex: Option<int>) returns (r: Value)
      ensures ShownStep(stepIndex).None? || !elements.Arr? ==> r == Arr([])
      ensures ShownStep(stepIndex).Some? && elements.Arr? ==> r == OnStep(elements, ShownStep(stepIndex).value)
      ensures ShownStep(stepIndex).Some? && elements.Arr? ==>
                r.Arr? && Keys(r.entries) == Keys(elements.entries)
      ensures ShownStep(stepIndex).Some? && elements.Arr? && Valid() ==>
                VisibleSteps(r) == [ShownStep(stepIndex).value]
    {
      var stepName := StepName(stepIndex);
      if stepName.None? || !Truthy(Str(stepName.value)) {
        return Arr([]);
      }
      var current := stepName.value;
      var els := elements;
      if !els.Arr? {
        return Arr([]);
      }
      var kids := ElementChildren(els);
      for i := 0 to |kids|
        invariant els == ProjectKeys(elements, kids[..i], current)
      {
        var elementKey := kids[i];
        assert kids[..i + 1][..i] == kids[..i];
        if IsStepType(Lookup(Lookup(els, elementKey), "#type")) && elementKey != current {
          els := WithAccess(els, elementKey, false);
        } else {
          els := WithAccess(els, elementKey, true);
        }
      }
      assert kids[..|kids|] == kids;
      r := els;
      ChildKeysMembers(elements.entries);
      ProjectKeysKeys(elements, kids, current);
      if Valid() {
        VisibleStepsSpec(elements);
        OnStepShowsOneStep(elements, current);
      }
    }

    /** `getStepLabel($stepName)`: the `#title` of the named element, of the
        current step when the name is empty, and of the element under the
        key '' when there is no current step either (PHP reads a NULL key
        as ''). */
    function StepLabel(stepName: Option<string>): (r: Value)
      reads this`elements, this`stepNames, this`currentStep
      ensures stepName.Some? && Truthy(Str(stepName.value)) ==>
                r == Lookup(Lookup(elements, stepName.value), "#title")
      ensures !(stepName.Some? && Truthy(Str(stepName.value))) ==>
                r == Lookup(Lookup(elements, if CurrentStepName().Some? then CurrentStepName().value else ""), "#title")
    {
      var n := if stepName.Some? && Truthy(Str(stepName.value)) then stepName else CurrentStepName();
      Lookup(Lookup(elements, if n.Some? then n.value else ""), "#title")
    }

    /** `getSetting($settingName)`: the setting when it is set, else NULL. */
    function GetSetting(settingName: string): (r: Value)
      reads this`settings
      ensures settings.Arr? && settingName in Keys(settings.entries) ==>
                r == settings.entries[IndexOf(settings.entries, settingName).value].val
      ensures !(settings.Arr? && settingName in Keys(settings.entries)) ==> r == Null
    {
      Lookup(settings, settingName)
    }

    /** `getConfirmationURL()`: the path `form/<name>/confirmation`. */
    function ConfirmationURL(): (r: string)
      reads this`name
      ensures |r| == |name| + 18
      ensures r[..5] == "form/" && r[5..5 + |name|] == name && r[5 + |name|..] == "/confirmation"
    {
      "form/" + name + "/confirmation"
    }
  }
}
