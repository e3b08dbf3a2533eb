/** The navigation buttons `Simpleform::getActions` builds from the two
    position flags, as Form API element arrays. Labels passed through `t()`
    and the callback names are kept as plain strings. */
module Actions {
  import opened PhpValues

  const AjaxSettings: Value :=
    Arr([Entry("callback", Str("simpleform_ajax_callback_item")),
         Entry("wrapper", Str("simpleform-wrapper")),
         Entry("effect", Str("none"))])

  /** A one-item PHP list `array($x)`, whose only key is 0. */
  function ListOf(x: Value): Value {
    Arr([Entry("0", x)])
  }

  function BackButton(access: bool): Value {
    Arr([Entry("#type", Str("submit")),
         Entry("#value", Str("Back")),
         Entry("#name", Str("back")),
         Entry("#limit_validation_errors", Arr([])),
         Entry("#ajax", AjaxSettings),
         Entry("#submit", ListOf(Str("simpleform_ajax_button_submit"))),
         Entry("#access", Bool(access)),
         Entry("#attributes", Arr([Entry("class", ListOf(Str("btn-back")))]))])
  }

  function SubmitButton(access: bool): Value {
    Arr([Entry("#type", Str("submit")),
         Entry("#value", Str("Submit")),
         Entry("#access", Bool(access)),
         Entry("#submit", ListOf(Str("simpleform_form_submit"))),
         Entry("#attributes", Arr([Entry("class", ListOf(Str("btn-submit")))]))])
  }

  function NextButton(access: bool): Value {
    Arr([Entry("#type", Str("submit")),
         Entry("#value", Str("Next")),
         Entry("#name", Str("next")),
         Entry("#ajax", AjaxSettings),
         Entry("#submit", ListOf(Str("simpleform_ajax_button_submit"))),
         Entry("#access", Bool(access)),
         Entry("#attributes", Arr([Entry("class", ListOf(Str("btn-next")))]))])
  }

  /** A submit-type button whose `#access` flag is `access`. */
  predicate IsButton(button: Value, access: bool) {
    Lookup(button, "#type") == Str("submit") && Lookup(button, "#access") == Bool(access)
  }

  /** A slot found by position: its key appears nowhere before it. */
  lemma LookupAt(es: seq<Entry>, k: string, p: nat)
    requires p < |es| && es[p].key == k
    requires forall j :: 0 <= j < p ==> es[j].key != k
    ensures Lookup(Arr(es), k) == es[p].val
  {
    IndexOfAt(es, k, p);
  }

  lemma BackIsButton(access: bool)
    ensures IsButton(BackButton(access), access)
  {
    var es := BackButton(access).entries;
    LookupAt(es, "#type", 0);
    // Tell the keys before `#access` apart from it by length or second character.
    assert |es[1].key| == 6 && |es[2].key| == 5 && |es[3].key| == 24 && |es[4].key| == 5;
    assert es[5].key[1] == 's';
    LookupAt(es, "#access", 6);
  }

  lemma SubmitIsButton(access: bool)
    ensures IsButton(SubmitButton(access), access)
  {
    var es := SubmitButton(access).entries;
    LookupAt(es, "#type", 0);
    // Tell the key before `#access` apart from it by length.
    assert |es[1].key| == 6;
    LookupAt(es, "#access", 2);
  }

  lemma NextIsButton(access: bool)
    ensures IsButton(NextButton(access), access)
  {
    var es := NextButton(access).entries;
    LookupAt(es, "#type", 0);
    // Tell the keys before `#access` apart from it by length or second character.
    assert |es[1].key| == 6 && |es[2].key| == 5 && |es[3].key| == 5;
    assert es[4].key[1] == 's';
    LookupAt(es, "#access", 5);
  }

  /** `getActions()`: 'back' unless on the first step, then 'submit' on the
      last step or 'next' otherwise. */
  function GetActions(isFirstStep: bool, isLastStep: bool): (r: seq<Entry>)
    ensures |r| == (if isFirstStep then 1 else 2) && UniqueKeys(r)
    ensures !isFirstStep ==> r[0].key == "back"
  {
    var last := LastAction(isLastStep);
    if isFirstStep then [last]
    else [Entry("back", BackButton(!isFirstStep)), last]
  }

  /** The last action: 'submit' on the last step, 'next' before it. */
  function LastAction(isLastStep: bool): (e: Entry)
    ensures e.key == (if isLastStep then "submit" else "next")
  {
    if isLastStep then Entry("submit", SubmitButton(isLastStep))
    else Entry("next", NextButton(!isLastStep))
  }

  /** Which buttons appear: 'back' off the first step, 'submit' exactly on
      the last step, 'next' exactly before it. */
  lemma GetActionsKeys(isFirstStep: bool, isLastStep: bool)
    ensures "back" in Keys(GetActions(isFirstStep, isLastStep)) <==> !isFirstStep
    ensures "submit" in Keys(GetActions(isFirstStep, isLastStep)) <==> isLastStep
    ensures "next" in Keys(GetActions(isFirstStep, isLastStep)) <==> !isLastStep
  {
    var r := GetActions(isFirstStep, isLastStep);
    var last := LastAction(isLastStep);
    if isFirstStep {
      assert Keys(r) == [last.key];
    } else {
      assert Keys(r) == ["back", last.key];
    }
  }

  /** Each button's `#access` repeats the condition under which it was
      added, so every button listed is an accessible submit button. */
  lemma GetActionsAccessible(isFirstStep: bool, isLastStep: bool)
    ensures forall e :: e in GetActions(isFirstStep, isLastStep) ==> IsButton(e.val, true)
  {
    if isLastStep { SubmitIsButton(true); } else { NextIsButton(true); }
    if !isFirstStep { BackIsButton(true); }
  }
}
