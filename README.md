# Simpleform stepper in Dafny

A model of the `Simpleform` class of the Drupal 7 module `simpleform`
(`includes/Simpleform.php`). A form is built from an already parsed form
definition. Its `elements` entry is a nested Form API element tree. Child keys
written with a leading `.` in the definition are normalised to `#` property
keys. The top-level children whose `#type` is `step` and whose `#access` is
absent or true become the form's steps, in order. A cursor (`currentStep`)
moves over them. Steps can be hidden and shown again. The tree can be
projected onto one step, and the navigation buttons (back, next, submit)
follow from the cursor.

Modules, one per file:

- `PhpValues` (`php_values.dfy`): PHP values. A PHP array is an
  insertion-ordered sequence of `key => value` slots with string keys. The
  module covers the read `$v[$k]` (NULL when missing), the write `$v[$k] = $x`
  (overwrite in place, append a new key, turn NULL or FALSE into an array) and
  `empty()`.
- `DrupalElements` (`drupal_elements.dfy`): Drupal 7's `element_children`
  with its default `$sort = FALSE`. It yields the keys that are `''` or do not
  start with `#`, in insertion order. This helper is not part of the
  repository. The model follows Drupal 7 core.
- `KeyNormalizer` (`key_normalizer.dfy`): `arrayRenameKey` with the full
  `array_combine` behaviour. It also holds the recursive `drupalizeElements`,
  written as a method with its `foreach` loop and proved equal to the
  specification function `Drupalized`.
- `Steps` (`steps.dfy`): the step list derived from a tree (`VisibleSteps`),
  the `#access` write that `hideStep`/`showStep` perform (`WithAccess`), and
  the projection of `getElementsOnStep` (`OnStep`). It also proves what these
  do to the step list.
- `Actions` (`actions.dfy`): the three Form API buttons and `getActions`.
- `Simpleform` (`simpleform.dfy`): the `Simpleform` class. Its fields are
  updated in place by the constructor, `revisitSteps`, `hideStep`, `showStep`
  and the cursor methods. `Valid()` says that `stepNames` is
  `VisibleSteps(elements)` and that the top level has distinct keys. Every
  state-changing method keeps `Valid()`.

PHP's `$t == 'step'` is modelled with PHP 7's loose comparison. TRUE and the
integer 0 both equal `'step'`. NULL, FALSE, other integers and arrays do not.

## Model

| member | source | states |
|---|---|---|
| `PhpValues.IndexOf` | includes/Simpleform.php:414 | the first slot holding a key; absent exactly when the key is not among the keys |
| `PhpValues.LookupSetSame` | includes/Simpleform.php:130 | after a write to an array, NULL or FALSE, the key reads back the written value and the result is an array |
| `PhpValues.LookupSetOther` | includes/Simpleform.php:130 | a write to one key leaves every other key reading as before |
| `PhpValues.KeysSetIn` | includes/Simpleform.php:130 | a write keeps the key order; an unknown key is appended last |
| `DrupalElements.ChildKeysMembers` | includes/Simpleform.php:115 | `element_children` yields exactly the keys that do not start with `#` |
| `DrupalElements.ChildKeysInOrder` | includes/Simpleform.php:115 | the children keep the order the keys have in the array |
| `DrupalElements.ChildKeysDistinct` | includes/Simpleform.php:115 | distinct keys give distinct children |
| `KeyNormalizer.HashKey` | includes/Simpleform.php:393-394 | the renamed key is the old one with its first character replaced by `#`, so it is never a child key |
| `KeyNormalizer.HashKeyInjective` | includes/Simpleform.php:393-394 | two different `.` keys never get the same `#` key |
| `KeyNormalizer.ArrayCombineDistinct` | includes/Simpleform.php:418 | with distinct keys, `array_combine` pairs the i-th key with the i-th value, same length and order |
| `KeyNormalizer.ArrayRenameKey` | includes/Simpleform.php:412-422 | an absent old key leaves the array unchanged; a present one with a fresh new key changes only that slot's key, in place, value kept |
| `KeyNormalizer.ArrayRenameKeyMerges` | includes/Simpleform.php:417-418 | renaming onto a key that already exists merges the two slots: `['.a' => 1, '#a' => 2]` renamed to `#a` leaves only `['#a' => 2]` |
| `KeyNormalizer.DrupalizedHasNoDotChildren` | includes/Simpleform.php:389-401 | after normalisation no child key at any visited level starts with `.` |
| `KeyNormalizer.DrupalizedKeepsPositions` | includes/Simpleform.php:389-401 | normalisation keeps every slot in its position; only `.` child keys change (to `#` + rest) and only child values are recursed into |
| `KeyNormalizer.DrupalizedIdempotent` | includes/Simpleform.php:389-401 | a second normalisation changes nothing |
| `KeyNormalizer.DrupalizedUniqueKeys` | includes/Simpleform.php:389-401 | a normalisable array still has distinct keys once normalised |
| `KeyNormalizer.PartlyDrupalizedKeys` | includes/Simpleform.php:390-396 | during the loop the keys stay distinct and the `#` key a pending `.` child will take is still free |
| `KeyNormalizer.PartlyDrupalizedStep` | includes/Simpleform.php:390-399 | one loop iteration renames and normalises exactly the slot of the current child, found at its original position |
| `KeyNormalizer.PartlyDrupalizedAll` | includes/Simpleform.php:390 | once every child is handled, the array is the normalised one |
| `KeyNormalizer.DrupalizedNormalizable` | includes/Simpleform.php:389-401 | a normalised tree meets the precondition again, so `drupalizeElements` can be applied a second time |
| `KeyNormalizer.DrupalizeElements` | includes/Simpleform.php:389-401 | the in-place rewrite yields exactly `Drupalized(element)`; `DrupalizedNormalizable` and `DrupalizedIdempotent` show that this result can be normalised again and then does not change |
| `Steps.StepsAmongMembers` | includes/Simpleform.php:115-120 | a key is collected exactly when it is among the keys visited and its element is a step with `#access` absent or true |
| `Steps.StepsAmongInOrder` | includes/Simpleform.php:115-120 | the collected keys keep the visiting order |
| `Steps.StepsAmongDistinct` | includes/Simpleform.php:115-120 | visiting distinct keys collects distinct names |
| `Steps.VisibleStepsSpec` | includes/Simpleform.php:113-122 | the step names are exactly the top-level child keys whose element is a visible step, in order, without repeats |
| `Steps.WithAccessOthers` | includes/Simpleform.php:130 | setting one element's `#access` leaves every other top-level element unchanged |
| `Steps.WithAccessSetsFlag` | includes/Simpleform.php:130 | the written element keeps all its other properties and gets `#access` set; a tree that cannot be written is left as it is |
| `Steps.WithAccessKeys` | includes/Simpleform.php:130 | the write keeps the top-level keys; an unknown name is appended |
| `Steps.WithAccessWellKeyed` | includes/Simpleform.php:130 | the write never duplicates a top-level key |
| `Steps.WithAccessChildren` | includes/Simpleform.php:130 | the children stay the same, plus the new name at the end when it was unknown |
| `Steps.HiddenIsNotVisible` | includes/Simpleform.php:130 | after the FALSE write, the element is not a visible step |
| `Steps.StepsAmongWithout` | includes/Simpleform.php:115-120 | if only one element changed and it is no longer a visible step, the collected list loses just that name |
| `Steps.HideStepRemoves` | includes/Simpleform.php:129-132 | hiding then re-deriving gives the old step list without that name, order kept |
| `Steps.HideInArray` | includes/Simpleform.php:129-132 | the same for a tree that is an array |
| `Steps.NoStepsOutsideArray` | includes/Simpleform.php:115 | a tree that is not an array has no steps |
| `Steps.ShowStepAdds` | includes/Simpleform.php:139-142 | after showing, every other name is listed as before; the shown name is listed exactly when it is a top-level child whose `#type` is a step |
| `Steps.ShownIsVisibleIffStep` | includes/Simpleform.php:140 | after the TRUE write, the element is a visible step exactly when it is a step |
| `Steps.ProjectKeysKeys` | includes/Simpleform.php:188-196 | the projection keeps the keys and their order |
| `Steps.ProjectKeysUntouched` | includes/Simpleform.php:188-196 | keys not visited are unchanged, and no property other than `#access` changes |
| `Steps.ProjectKeysAccess` | includes/Simpleform.php:188-196 | every visited child gets `#access` FALSE if it is another step and TRUE otherwise |
| `Steps.ProjectKeysAccessStep` | includes/Simpleform.php:189-194 | one iteration keeps the flags already set and sets the current child's flag |
| `Steps.ProjectKeysScalars` | includes/Simpleform.php:190-193 | a child that cannot hold a property is left as it is |
| `Steps.ProjectKeysArr` | includes/Simpleform.php:188-196 | the projection of an array is an array |
| `Steps.OnStepShowsOneStep` | includes/Simpleform.php:176-197 | in the projected tree the only visible step is the selected one, and only when it is a top-level step |
| `Steps.StepsAmongSingle` | includes/Simpleform.php:115-120 | if exactly one distinct key is a visible step, the step list is just that key |
| `Actions.BackIsButton` | includes/Simpleform.php:340-353 | the back button is a submit button whose `#access` is the given flag |
| `Actions.SubmitIsButton` | includes/Simpleform.php:357-363 | the submit button is a submit button whose `#access` is the given flag |
| `Actions.NextIsButton` | includes/Simpleform.php:366-378 | the next button is a submit button whose `#access` is the given flag |
| `Actions.GetActions` | includes/Simpleform.php:337-382 | one action on the first step, two otherwise, with distinct keys and 'back' first when present |
| `Actions.LastAction` | includes/Simpleform.php:356-379 | the last action is 'submit' on the last step and 'next' otherwise |
| `Actions.GetActionsKeys` | includes/Simpleform.php:337-382 | 'back' appears exactly off the first step, 'submit' exactly on the last step, 'next' exactly before it |
| `Actions.GetActionsAccessible` | includes/Simpleform.php:351-376 | every listed button's `#access` is TRUE, as it repeats the condition under which the button was added |
| `Simpleform.NormalizedElements` | includes/Simpleform.php:90-92 | the `elements` entry is normalised when set; the result has distinct top-level keys |
| `Simpleform.Simpleform.constructor` | includes/Simpleform.php:89-108 | name, label and confirmation message are copied; empty description and settings become NULL; elements are the normalised tree; the steps are derived and `Valid()` holds; the cursor is 0 |
| `Simpleform.Simpleform.RevisitSteps` | includes/Simpleform.php:113-122 | `stepNames` becomes `VisibleSteps(elements)`; a second call with nothing changed in between leaves the list as it was |
| `Simpleform.Simpleform.HideStep` | includes/Simpleform.php:129-132 | only the named element's `#access` becomes FALSE; the name leaves `stepNames` and the other names keep their order; `Valid()` is kept; the cursor is untouched |
| `Simpleform.Simpleform.ShowStep` | includes/Simpleform.php:139-142 | only the named element's `#access` becomes TRUE; the name is listed exactly when it is a top-level step; other names unchanged; `Valid()` is kept; the cursor is untouched |
| `Simpleform.Simpleform.SetCurrentStep` | includes/Simpleform.php:298-300 | the cursor takes the given index, unchecked |
| `Simpleform.Simpleform.GoToNextStep` | includes/Simpleform.php:305-307 | the cursor grows by exactly one, with no upper bound; elements and steps untouched |
| `Simpleform.Simpleform.GoToPrevStep` | includes/Simpleform.php:312-314 | the cursor shrinks by exactly one, with no lower bound; elements and steps untouched |
| `Simpleform.Simpleform.StepName` | includes/Simpleform.php:271-282 | a name exactly when the index (the cursor by default) is in range, and then the name at that index |
| `Simpleform.Simpleform.CurrentStepName` | includes/Simpleform.php:258-260 | the name under the cursor, NULL when the cursor is out of range |
| `Simpleform.Simpleform.IsFirstStep` | includes/Simpleform.php:321-323 | true exactly at cursor 0, where the current name is the first step name |
| `Simpleform.Simpleform.IsLastStep` | includes/Simpleform.php:330-332 | true exactly at cursor `count - 1`, where the current name is the last step name (none when there are no steps) |
| `Simpleform.Simpleform.GetActions` | includes/Simpleform.php:337-382 | 'back' iff the cursor is not 0, 'submit' iff it is at the last index, 'next' otherwise; distinct keys; every button accessible |
| `Simpleform.Simpleform.GetElementsOnStep` | includes/Simpleform.php:176-197 | an empty array when the index names no step, a falsy name, or a tree that is not an array; otherwise the projected tree, same keys in the same order, in which the selected step is the only visible step; `elements` is not changed |
| `Simpleform.Simpleform.StepLabel` | includes/Simpleform.php:161-166 | the `#title` of the named element, or of the current step when the name is empty, or of the element under `''` when there is no current step |
| `Simpleform.Simpleform.GetSetting` | includes/Simpleform.php:77-79 | the setting's value when the key is present, NULL otherwise |
| `Simpleform.Simpleform.ConfirmationURL` | includes/Simpleform.php:204-206 | the path is `form/`, then the form name, then `/confirmation` |

## Left out

- `load` (includes/Simpleform.php:34-66): cache reads and writes, `variable_get`, the file system and exception handling are I/O.
- `parseFormDefinition` and `formSource`: they wrap the Symfony YAML parser, which is not part of this model. The constructor takes an already parsed definition.
- `getConfirmationPageTitle` and the `t()` calls: translation is outside the model. Button labels are the untranslated strings.
- `getLabel`, `getDescription`, `getName`, `getElements`, `getStepNames`, `getCurrentStep`: each is a plain read of a field, and the fields are visible in the class.
- theme/simpleform.tpl.php, simpleform.js and modules/editor/simpleform_editor.js: templating and browser code.
- `element_children` sorting by `#weight` (the `$sort = TRUE` branch and `#sorted`) is not modelled. It is off by default.
- Integer keys are not modelled. All keys are strings, and PHP's conversion of numeric-string keys such as `'1'` into integers is not modelled.
- Floats are left out of the value type.
- `KeyNormalizer.DrupalizeElements` requires `Normalizable`: distinct keys and no `.x`/`#x` sibling pair at every level it visits. Without this, `arrayRenameKey` merges slots, and the by-reference `$el` can point to a slot that is no longer in the array. `ArrayRenameKeyMerges` shows such a merge.
- `PhpValues.Lookup` reads a string-valued element's string offset as NULL. For non-numeric keys such as `#type` and `#access`, PHP either warns and reads one character or reports the offset as unset. Neither changes whether the element counts as a step.
- `PhpValues.SetIn` leaves TRUE, integers and strings unchanged on a write. For TRUE and integers PHP warns and changes nothing. A write into a non-empty string under PHP 7 warns and overwrites the string's first character, with `'1'` for TRUE. Depending on the PHP 7 minor version, an empty string either becomes an array or is written the same way. None of these string writes is modelled.
- `Simpleform.Simpleform.HideStep` and `Simpleform.Simpleform.ShowStep` return normally and leave `elements` unchanged when `elements` is a non-empty string. In PHP 7 the nested write `$this->elements[$stepName]['#access']` at includes/Simpleform.php:130 and :140 throws the Error "Cannot use string offset as an array" on such a string. The model does not capture this failure.
- `KeyNormalizer.ArrayRenameKey` finds the old key by exact comparison. `array_search` at includes/Simpleform.php:414 runs without `$strict`, so it compares numeric strings as numbers: in `['0.5' => A, '.5' => B]`, renaming `.5` renames the slot `0.5` instead.
- `Simpleform.Simpleform.StepName` takes an optional integer index. The source also accepts a step name, which never resolves because `stepNames` is a list. A numeric string index is not modelled.
- `Simpleform.Simpleform.GetElementsOnStep` compares child keys with the step name exactly. PHP's `!=` compares two numeric strings as numbers.
- `Steps.IsStepType` follows PHP 7's loose comparison. Under PHP 8, `0 == 'step'` is false.
