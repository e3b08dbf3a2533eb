/** What `Simpleform` derives from its element tree: the visible steps in
    order, the effect of hiding or showing a step, and the view of the tree on
    one step. */
module Steps {
  import opened PhpValues
  import opened DrupalElements

  /** `$element['#type'] == 'step'` under PHP 7's loose comparison: TRUE equals
      any non-empty string, the integer 0 equals the non-numeric 'step', NULL
      compares as '' and an array never equals a string. */
  predicate IsStepType(t: Value) {
    match t
    case Str(s) => s == "step"
    case Bool(b) => b
    case Int(i) => i == 0
    case _ => false
  }

  predicate IsStep(element: Value) {
    IsStepType(Lookup(element, "#type"))
  }

  /** `!isset($element['#access']) || $element['#access']`. */
  predicate IsAccessible(element: Value) {
    var access := Lookup(element, "#access");
    access == Null || Truthy(access)
  }

  predicate IsVisibleStep(element: Value) {
    IsStep(element) && IsAccessible(element)
  }

  /** The keys among `ks` whose element in `v` is a visible step, in order. */
  function StepsAmong(v: Value, ks: seq<string>): seq<string>
    decreases |ks|
  {
    if ks == [] then []
    else
      var k := ks[|ks| - 1];
      StepsAmong(v, ks[..|ks| - 1]) + (if IsVisibleStep(Lookup(v, k)) then [k] else [])
  }

  /** The step names `revisitSteps` derives from the element tree `v`. */
  function VisibleSteps(v: Value): seq<string> {
    StepsAmong(v, ElementChildren(v))
  }

  /** `s` without any occurrence of `n`. */
  function Without(s: seq<string>, n: string): (r: seq<string>)
    ensures n !in r
    ensures forall k :: k in r <==> k in s && k != n
    decreases |s|
  {
    if s == [] then []
    else Without(s[..|s| - 1], n) + (if s[|s| - 1] == n then [] else [s[|s| - 1]])
  }

  lemma {:induction false} StepsAmongMembers(v: Value, ks: seq<string>)
    ensures forall k :: k in StepsAmong(v, ks) <==> k in ks && IsVisibleStep(Lookup(v, k))
    decreases |ks|
  {
    if ks != [] {
      StepsAmongMembers(v, ks[..|ks| - 1]);
      assert ks == ks[..|ks| - 1] + [ks[|ks| - 1]];
    }
  }

  lemma {:induction false} StepsAmongInOrder(v: Value, ks: seq<string>)
    ensures IsSubsequence(StepsAmong(v, ks), ks)
    decreases |ks|
  {
    if ks != [] {
      var init, k := ks[..|ks| - 1], ks[|ks| - 1];
      StepsAmongInOrder(v, init);
      assert ks == init + [k];
      SubsequenceExtend(StepsAmong(v, init), init, k);
      if !IsVisibleStep(Lookup(v, k)) {
        assert StepsAmong(v, ks) == StepsAmong(v, init);
      }
    }
  }

  lemma {:induction false} StepsAmongDistinct(v: Value, ks: seq<string>)
    requires NoDuplicates(ks)
    ensures NoDuplicates(StepsAmong(v, ks))
    decreases |ks|
  {
    if ks != [] {
      var init, k := ks[..|ks| - 1], ks[|ks| - 1];
      StepsAmongDistinct(v, init);
      StepsAmongMembers(v, init);
      assert k !in init;
    }
  }

  /** `revisitSteps` yields exactly the top-level children that are visible
      steps, in tree order, each once. */
  lemma VisibleStepsSpec(v: Value)
    ensures forall k :: k in VisibleSteps(v) <==>
              v.Arr? && k in Keys(v.entries) && IsChildKey(k) && IsVisibleStep(Lookup(v, k))
    ensures IsSubsequence(VisibleSteps(v), ElementChildren(v))
    ensures v.Arr? && UniqueKeys(v.entries) ==> NoDuplicates(VisibleSteps(v))
  {
    StepsAmongMembers(v, ElementChildren(v));
    StepsAmongInOrder(v, ElementChildren(v));
    if v.Arr? {
      ChildKeysMembers(v.entries);
      if UniqueKeys(v.entries) {
        ChildKeysDistinct(v.entries);
        StepsAmongDistinct(v, ElementChildren(v));
      }
    }
  }

  /** `$this->elements[$stepName]['#access'] = $flag`, with PHP's
      autovivification of a missing slot. */
  function WithAccess(v: Value, name: string, flag: bool): Value {
    SetIn(v, name, SetIn(Lookup(v, name), "#access", Bool(flag)))
  }

  /** The write leaves every other key reading as before. */
  lemma WithAccessOthers(v: Value, name: string, flag: bool)
    ensures forall k :: k != name ==> Lookup(WithAccess(v, name, flag), k) == Lookup(v, k)
  {
    var el' := SetIn(Lookup(v, name), "#access", Bool(flag));
    forall k | k != name ensures Lookup(WithAccess(v, name, flag), k) == Lookup(v, k) {
      LookupSetOther(v, name, el', k);
    }
  }

  /** The write changes `name`'s `#access` and no other property of it. */
  lemma WithAccessSetsFlag(v: Value, name: string, flag: bool)
    ensures forall p :: p != "#access" ==>
              Lookup(Lookup(WithAccess(v, name, flag), name), p) == Lookup(Lookup(v, name), p)
    ensures Writable(v) && Writable(Lookup(v, name)) ==>
              && Lookup(WithAccess(v, name, flag), name).Arr?
              && Lookup(Lookup(WithAccess(v, name, flag), name), "#access") == Bool(flag)
    ensures !Writable(v) ==> WithAccess(v, name, flag) == v
  {
    var el := Lookup(v, name);
    var el' := SetIn(el, "#access", Bool(flag));
    if Writable(v) {
      LookupSetSame(v, name, el');
      if Writable(el) {
        LookupSetSame(el, "#access", Bool(flag));
      }
    }
    forall p | p != "#access" ensures Lookup(Lookup(WithAccess(v, name, flag), name), p) == Lookup(el, p) {
      LookupSetOther(el, "#access", Bool(flag), p);
    }
  }

  /** The write keeps the key order; an unknown name is appended. */
  lemma WithAccessKeys(v: Value, name: string, flag: bool)
    requires v.Arr?
    ensures WithAccess(v, name, flag).Arr?
    ensures Keys(WithAccess(v, name, flag).entries) ==
            if name in Keys(v.entries) then Keys(v.entries) else Keys(v.entries) + [name]
  {
    KeysSetIn(v, name, SetIn(Lookup(v, name), "#access", Bool(flag)));
  }

  /** An array whose keys are distinct; a scalar trivially qualifies. */
  predicate WellKeyed(v: Value) {
    v.Arr? ==> UniqueKeys(v.entries)
  }

  /** The write never duplicates a key. */
  lemma WithAccessWellKeyed(v: Value, name: string, flag: bool)
    requires WellKeyed(v)
    ensures WellKeyed(WithAccess(v, name, flag))
  {
    var v' := WithAccess(v, name, flag);
    if v.Arr? {
      WithAccessKeys(v, name, flag);
      assert forall i :: 0 <= i < |v'.entries| ==> v'.entries[i].key == Keys(v'.entries)[i];
      assert forall i :: 0 <= i < |v.entries| ==> v.entries[i].key == Keys(v.entries)[i];
    }
  }

  /** The children of the tree after the write: the same, plus `name` at the
      end when it was a new child key. */
  lemma WithAccessChildren(v: Value, name: string, flag: bool)
    ensures v.Arr? && name in Keys(v.entries) ==> ElementChildren(WithAccess(v, name, flag)) == ElementChildren(v)
    ensures v.Arr? && name !in Keys(v.entries) ==>
              ElementChildren(WithAccess(v, name, flag)) ==
              ElementChildren(v) + (if IsChildKey(name) then [name] else [])
  {
    if v.Arr? {
      WithAccessKeys(v, name, flag);
      var es, es' := v.entries, WithAccess(v, name, flag).entries;
      if name in Keys(es) {
        ChildKeysSameKeys(es, es');
      } else {
        assert |es'| == |es| + 1;
        assert Keys(es'[..|es|]) == Keys(es')[..|es|] == Keys(es);
        ChildKeysSameKeys(es'[..|es|], es);
        assert es'[|es|].key == Keys(es')[|es|] == name;
      }
    }
  }

  lemma {:induction false} ChildKeysSameKeys(a: seq<Entry>, b: seq<Entry>)
    requires Keys(a) == Keys(b)
    ensures ChildKeys(a) == ChildKeys(b)
    decreases |a|
  {
    if a != [] {
      assert Keys(a[..|a| - 1]) == Keys(a)[..|a| - 1] == Keys(b)[..|b| - 1] == Keys(b[..|b| - 1]);
      ChildKeysSameKeys(a[..|a| - 1], b[..|b| - 1]);
      assert a[|a| - 1].key == Keys(a)[|a| - 1];
    }
  }

  /** Hiding: the written step is no longer a visible step. */
  lemma HiddenIsNotVisible(v: Value, name: string)
    ensures !IsVisibleStep(Lookup(WithAccess(v, name, false), name))
  {
    WithAccessSetsFlag(v, name, false);
  }

  /** Rewriting only `name`'s slot, so that it is not a visible step, removes
      `name` from the derived list and keeps the rest in order. */
  lemma {:induction false} StepsAmongWithout(v: Value, v': Value, ks: seq<string>, name: string)
    requires forall k :: k != name ==> Lookup(v', k) == Lookup(v, k)
    requires !IsVisibleStep(Lookup(v', name))
    ensures StepsAmong(v', ks) == Without(StepsAmong(v, ks), name)
    decreases |ks|
  {
    if ks != [] {
      var init, k := ks[..|ks| - 1], ks[|ks| - 1];
      StepsAmongWithout(v, v', init, name);
      var s := StepsAmong(v, init);
      if IsVisibleStep(Lookup(v, k)) {
        assert (s + [k])[..|s|] == s;
      } else {
        assert s + [] == s;
      }
    }
  }

  /** `hideStep(name)` followed by `revisitSteps`: the step list loses `name`
      and is otherwise the list before, in the same order. */
  lemma HideStepRemoves(v: Value, name: string)
    ensures VisibleSteps(WithAccess(v, name, false)) == Without(VisibleSteps(v), name)
  {
    if v.Arr? {
      HideInArray(v, name);
    } else {
      var v' := WithAccess(v, name, false);
      WithAccessOthers(v, name, false);
      HiddenIsNotVisible(v, name);
      StepsAmongWithout(v, v', ElementChildren(v'), name);
      NoStepsOutsideArray(v, ElementChildren(v'));
      assert VisibleSteps(v) == [];
    }
  }

  lemma HideInArray(v: Value, name: string)
    requires v.Arr?
    ensures VisibleSteps(WithAccess(v, name, false)) == Without(VisibleSteps(v), name)
  {
    var v' := WithAccess(v, name, false);
    var ks := ElementChildren(v);
    WithAccessOthers(v, name, false);
    HiddenIsNotVisible(v, name);
    StepsAmongWithout(v, v', ks, name);
    WithAccessChildren(v, name, false);
    if name !in Keys(v.entries) && IsChildKey(name) {
      assert ElementChildren(v') == ks + [name];
      assert (ks + [name])[..|ks|] == ks;
      assert StepsAmong(v', ks + [name]) == StepsAmong(v', ks);
    } else {
      assert ElementChildren(v') == ks;
    }
  }

  lemma {:induction false} NoStepsOutsideArray(v: Value, ks: seq<string>)
    requires !v.Arr?
    ensures StepsAmong(v, ks) == []
    decreases |ks|
  {
    if ks != [] {
      NoStepsOutsideArray(v, ks[..|ks| - 1]);
    }
  }

  /** `showStep(name)` followed by `revisitSteps`: `name` is listed exactly
      when it is a step among the top-level children; every other name is
      listed exactly when it was before. */
  lemma ShowStepAdds(v: Value, name: string)
    ensures forall k :: k != name ==> (k in VisibleSteps(WithAccess(v, name, true)) <==> k in VisibleSteps(v))
    ensures name in VisibleSteps(WithAccess(v, name, true)) <==>
              v.Arr? && name in Keys(v.entries) && IsChildKey(name) && IsStep(Lookup(v, name))
  {
    var v' := WithAccess(v, name, true);
    VisibleStepsSpec(v);
    VisibleStepsSpec(v');
    WithAccessOthers(v, name, true);
    ShownIsVisibleIffStep(v, name);
    if v.Arr? {
      WithAccessKeys(v, name, true);
      assert forall k :: k != name ==> (k in Keys(v'.entries) <==> k in Keys(v.entries));
    } else if v' != v {
      assert v'.entries == [Entry(name, Lookup(v', name))];
      assert forall k :: k != name ==> k !in Keys(v'.entries);
    }
  }

  /** Showing: the written slot is a visible step exactly when it is a step. */
  lemma ShownIsVisibleIffStep(v: Value, name: string)
    ensures IsVisibleStep(Lookup(WithAccess(v, name, true), name)) <==> IsStep(Lookup(v, name))
  {
    WithAccessSetsFlag(v, name, true);
    assert Lookup(Lookup(WithAccess(v, name, true), name), "#type") == Lookup(Lookup(v, name), "#type");
  }

  /** The `#access` that `getElementsOnStep` gives child `k` when `current`
      is on show: FALSE on every other step, TRUE on everything else. */
  function ProjectedAccess(element: Value, k: string, current: string): bool {
    !(IsStep(element) && k != current)
  }

  /** The loop of `getElementsOnStep` over the children `ks`, on a local copy;
      each flag is read from the copy as it stands. */
  function ProjectKeys(v: Value, ks: seq<string>, current: string): Value
    decreases |ks|
  {
    if ks == [] then v
    else
      var w := ProjectKeys(v, ks[..|ks| - 1], current);
      var k := ks[|ks| - 1];
      WithAccess(w, k, ProjectedAccess(Lookup(w, k), k, current))
  }

  /** The tree as `getElementsOnStep` returns it for the step named `current`. */
  function OnStep(v: Value, current: string): Value {
    ProjectKeys(v, ElementChildren(v), current)
  }

  /** The projection keeps the keys and their order. */
  lemma {:induction false} ProjectKeysKeys(v: Value, ks: seq<string>, current: string)
    requires v.Arr? && forall k :: k in ks ==> k in Keys(v.entries)
    ensures ProjectKeys(v, ks, current).Arr?
    ensures Keys(ProjectKeys(v, ks, current).entries) == Keys(v.entries)
    decreases |ks|
  {
    if ks != [] {
      var init, k := ks[..|ks| - 1], ks[|ks| - 1];
      assert forall j :: j in init ==> j in ks;
      ProjectKeysKeys(v, init, current);
      var w := ProjectKeys(v, init, current);
      WithAccessKeys(w, k, ProjectedAccess(Lookup(w, k), k, current));
    }
  }

  /** Keys outside `ks` read as before, and so does every property other
      than `#access` of any key. */
  lemma {:induction false} ProjectKeysUntouched(v: Value, ks: seq<string>, current: string)
    ensures forall k :: k !in ks ==> Lookup(ProjectKeys(v, ks, current), k) == Lookup(v, k)
    ensures forall k, p :: p != "#access" ==>
              Lookup(Lookup(ProjectKeys(v, ks, current), k), p) == Lookup(Lookup(v, k), p)
    decreases |ks|
  {
    if ks != [] {
      var init, k := ks[..|ks| - 1], ks[|ks| - 1];
      assert forall j :: j in init ==> j in ks;
      ProjectKeysUntouched(v, init, current);
      var w := ProjectKeys(v, init, current);
      var flag := ProjectedAccess(Lookup(w, k), k, current);
      WithAccessOthers(w, k, flag);
      WithAccessSetsFlag(w, k, flag);
    }
  }

  /** Every child in `ks` whose value can hold a property gets the `#access`
      flag of the projection. */
  lemma {:induction false} ProjectKeysAccess(v: Value, ks: seq<string>, current: string)
    requires v.Arr?
    ensures forall k :: k in ks && Writable(Lookup(v, k)) ==>
              && Lookup(ProjectKeys(v, ks, current), k).Arr?
              && Lookup(Lookup(ProjectKeys(v, ks, current), k), "#access") ==
                 Bool(ProjectedAccess(Lookup(v, k), k, current))
    decreases |ks|
  {
    if ks != [] {
      var init, k := ks[..|ks| - 1], ks[|ks| - 1];
      ProjectKeysAccess(v, init, current);
      assert ks == init + [k];
      forall j | j in ks && Writable(Lookup(v, j))
        ensures && Lookup(ProjectKeys(v, ks, current), j).Arr?
                && Lookup(Lookup(ProjectKeys(v, ks, current), j), "#access") ==
                   Bool(ProjectedAccess(Lookup(v, j), j, current))
      {
        ProjectKeysAccessStep(v, init, k, current, j);
      }
    }
  }

  /** One more child `k` after `init`: the flag of every written child. */
  lemma ProjectKeysAccessStep(v: Value, init: seq<string>, k: string, current: string, j: string)
    requires v.Arr?
    requires forall k' :: k' in init && Writable(Lookup(v, k')) ==>
               && Lookup(ProjectKeys(v, init, current), k').Arr?
               && Lookup(Lookup(ProjectKeys(v, init, current), k'), "#access") ==
                  Bool(ProjectedAccess(Lookup(v, k'), k', current))
    requires (j in init || j == k) && Writable(Lookup(v, j))
    ensures && Lookup(ProjectKeys(v, init + [k], current), j).Arr?
            && Lookup(Lookup(ProjectKeys(v, init + [k], current), j), "#access") ==
               Bool(ProjectedAccess(Lookup(v, j), j, current))
  {
    var w := ProjectKeys(v, init, current);
    var flag := ProjectedAccess(Lookup(w, k), k, current);
    assert (init + [k])[..|init|] == init;
    assert ProjectKeys(v, init + [k], current) == WithAccess(w, k, flag);
    if j == k {
      ProjectKeysUntouched(v, init, current);
      ProjectKeysArr(v, init, current);
      WithAccessSetsFlag(w, k, flag);
      assert Lookup(Lookup(w, k), "#type") == Lookup(Lookup(v, k), "#type");
      assert Writable(Lookup(w, k)) by {
        if k in init {
          assert Lookup(w, k).Arr?;
        } else {
          assert Lookup(w, k) == Lookup(v, k);
        }
      }
    } else {
      WithAccessOthers(w, k, flag);
    }
  }

  /** A child whose value cannot hold a property is left as it was. */
  lemma {:induction false} ProjectKeysScalars(v: Value, ks: seq<string>, current: string)
    ensures forall k :: !Writable(Lookup(v, k)) ==> Lookup(ProjectKeys(v, ks, current), k) == Lookup(v, k)
    decreases |ks|
  {
    if ks != [] {
      var init, k := ks[..|ks| - 1], ks[|ks| - 1];
      ProjectKeysScalars(v, init, current);
      var w := ProjectKeys(v, init, current);
      var flag := ProjectedAccess(Lookup(w, k), k, current);
      WithAccessOthers(w, k, flag);
      if !Writable(Lookup(w, k)) && Writable(w) {
        LookupSetSame(w, k, Lookup(w, k));
      }
    }
  }

  lemma {:induction false} ProjectKeysArr(v: Value, ks: seq<string>, current: string)
    requires v.Arr?
    ensures ProjectKeys(v, ks, current).Arr?
    decreases |ks|
  {
    if ks != [] {
      ProjectKeysArr(v, ks[..|ks| - 1], current);
    }
  }

  /** On the projection for `current`, the only visible step is `current`
      itself, and only when it is a step of the tree. */
  lemma OnStepShowsOneStep(v: Value, current: string)
    requires v.Arr? && UniqueKeys(v.entries)
    ensures VisibleSteps(OnStep(v, current)) ==
              if current in ElementChildren(v) && IsStep(Lookup(v, current)) then [current] else []
  {
    var ks := ElementChildren(v);
    var r := OnStep(v, current);
    ChildKeysMembers(v.entries);
    ChildKeysDistinct(v.entries);
    ProjectKeysKeys(v, ks, current);
    ProjectKeysUntouched(v, ks, current);
    ProjectKeysAccess(v, ks, current);
    ChildKeysSameKeys(r.entries, v.entries);
    forall k | k in ks
      ensures IsVisibleStep(Lookup(r, k)) <==> k == current && IsStep(Lookup(v, k))
    {
      assert Lookup(Lookup(r, k), "#type") == Lookup(Lookup(v, k), "#type");
    }
    StepsAmongSingle(r, ks, current, IsStep(Lookup(v, current)));
  }

  lemma {:induction false} StepsAmongSingle(r: Value, ks: seq<string>, current: string, isStep: bool)
    requires NoDuplicates(ks)
    requires forall k :: k in ks ==> (IsVisibleStep(Lookup(r, k)) <==> k == current && isStep)
    ensures StepsAmong(r, ks) == if current in ks && isStep then [current] else []
    decreases |ks|
  {
    if ks != [] {
      var init, k := ks[..|ks| - 1], ks[|ks| - 1];
      assert ks == init + [k];
      assert NoDuplicates(init);
      StepsAmongSingle(r, init, current, isStep);
      assert StepsAmong(r, ks) == StepsAmong(r, init) + (if IsVisibleStep(Lookup(r, k)) then [k] else []);
      if k == current {
        assert current !in init;
        assert current in ks;
      } else {
        assert !IsVisibleStep(Lookup(r, k));
        assert current in ks <==> current in init;
      }
    }
  }
}
