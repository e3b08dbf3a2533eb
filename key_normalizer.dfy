/** The key normaliser of `Simpleform`: `arrayRenameKey` and
    `drupalizeElements`, which turn `.`-prefixed child keys of a parsed form
    definition into Drupal's `#` property keys without moving them. */
module KeyNormalizer {
  import opened PhpValues
  import opened DrupalElements

  predicate IsDotKey(k: string) {
    |k| > 0 && k[0] == '.'
  }

  /** The key with its leading `.` replaced by `#`. */
  function HashKey(k: string): (r: string)
    requires IsDotKey(k)
    ensures |r| == |k| && r[0] == '#' && r[1..] == k[1..]
    ensures !IsChildKey(r)
  {
    "#" + k[1..]
  }

  lemma HashKeyInjective(a: string, b: string)
    requires IsDotKey(a) && IsDotKey(b) && HashKey(a) == HashKey(b)
    ensures a == b
  {
    assert a == [a[0]] + a[1..] && b == [b[0]] + b[1..];
    assert a[1..] == HashKey(a)[1..] == HashKey(b)[1..] == b[1..];
  }

  function Zip(keys: seq<string>, vals: seq<Value>): (r: seq<Entry>)
    requires |keys| == |vals|
    ensures |r| == |keys| && Keys(r) == keys && Values(r) == vals
  {
    seq(|keys|, i requires 0 <= i < |keys| => Entry(keys[i], vals[i]))
  }

  /** PHP's `array_combine($keys, $values)`: the pairs are stored one after the
      other, so a key that repeats keeps its first position and its last value. */
  function ArrayCombine(keys: seq<string>, vals: seq<Value>): seq<Entry>
    requires |keys| == |vals|
    decreases |keys|
  {
    if keys == [] then []
    else
      var n := |keys| - 1;
      var acc := ArrayCombine(keys[..n], vals[..n]);
      KeysSetIn(Arr(acc), keys[n], vals[n]);
      SetIn(Arr(acc), keys[n], vals[n]).entries
  }

  /** With distinct keys, `array_combine` pairs the two lists up position by position. */
  lemma {:induction false} ArrayCombineDistinct(keys: seq<string>, vals: seq<Value>)
    requires |keys| == |vals| && NoDuplicates(keys)
    ensures ArrayCombine(keys, vals) == Zip(keys, vals)
    decreases |keys|
  {
    if keys != [] {
      var n := |keys| - 1;
      assert NoDuplicates(keys[..n]);
      ArrayCombineDistinct(keys[..n], vals[..n]);
      var acc := Zip(keys[..n], vals[..n]);
      assert ArrayCombine(keys, vals) == SetIn(Arr(acc), keys[n], vals[n]).entries;
      assert keys[n] !in Keys(acc) by {
        assert Keys(acc) == keys[..n];
      }
      assert SetIn(Arr(acc), keys[n], vals[n]).entries == acc + [Entry(keys[n], vals[n])];
      assert acc + [Entry(keys[n], vals[n])] == Zip(keys, vals);
    }
  }

  /** `arrayRenameKey($array, $oldKey, $newKey)`: the keys are listed, the
      first `oldKey` among them is replaced by `newKey`, and keys and values
      are zipped again with `array_combine`. */
  function ArrayRenameKey(a: seq<Entry>, oldKey: string, newKey: string): (r: seq<Entry>)
    ensures oldKey !in Keys(a) ==> r == a
    ensures oldKey in Keys(a) && UniqueKeys(a) && (newKey == oldKey || newKey !in Keys(a)) ==>
              var i := IndexOf(a, oldKey).value;
              r == a[i := Entry(newKey, a[i].val)]
  {
    match IndexOf(a, oldKey)
    case None => a
    case Some(i) =>
      var keys := Keys(a)[i := newKey];
      if UniqueKeys(a) && (newKey == oldKey || newKey !in Keys(a)) then
        RenamedKeysDistinct(a, i, newKey);
        ArrayCombineDistinct(keys, Values(a));
        assert Zip(keys, Values(a)) == a[i := Entry(newKey, a[i].val)];
        ArrayCombine(keys, Values(a))
      else
        ArrayCombine(keys, Values(a))
  }

  lemma RenamedKeysDistinct(a: seq<Entry>, i: nat, newKey: string)
    requires i < |a| && UniqueKeys(a)
    requires newKey == a[i].key || newKey !in Keys(a)
    ensures NoDuplicates(Keys(a)[i := newKey])
  {
  }

  /** When `newKey` is already taken, the two slots merge: here the renamed
      slot's value is overwritten by the later `#a` and the array shrinks. */
  lemma ArrayRenameKeyMerges()
    ensures ArrayRenameKey([Entry(".a", Int(1)), Entry("#a", Int(2))], ".a", "#a") == [Entry("#a", Int(2))]
  {
    var a := [Entry(".a", Int(1)), Entry("#a", Int(2))];
    assert IndexOf(a, ".a") == Some(0);
    var keys := Keys(a)[0 := "#a"];
    assert keys == ["#a", "#a"];
    assert Values(a) == [Int(1), Int(2)];
    assert ArrayCombine(keys[..1], Values(a)[..1]) == [Entry("#a", Int(1))] by {
      assert keys[..1][..0] == [];
      assert IndexOf([], "#a") == None;
    }
    assert IndexOf([Entry("#a", Int(1))], "#a") == Some(0);
  }

  /** Every array that `drupalizeElements` visits has distinct keys and never
      holds both `.x` and `#x`, so that each rename lands on a fresh key. */
  predicate Normalizable(v: Value)
    decreases v
  {
    match v
    case Arr(es) =>
      UniqueKeys(es) &&
      (forall i :: 0 <= i < |es| && IsDotKey(es[i].key) ==> HashKey(es[i].key) !in Keys(es)) &&
      (forall i :: 0 <= i < |es| && IsChildKey(es[i].key) ==> Normalizable(es[i].val))
    case _ => true
  }

  /** The normalised form of one slot: a child key loses its `.` prefix to
      `#`, and a child's value is normalised in turn; `#` properties are not
      visited. */
  function DrupalizedEntry(e: Entry): Entry
    decreases e
  {
    if !IsChildKey(e.key) then e
    else Entry(if IsDotKey(e.key) then HashKey(e.key) else e.key, Drupalized(e.val))
  }

  function Drupalized(v: Value): Value
    decreases v
  {
    match v
    case Arr(es) => Arr(seq(|es|, i requires 0 <= i < |es| => DrupalizedEntry(es[i])))
    case _ => v
  }

  /** No child key at any visited level starts with `.`. */
  predicate NoDotChildren(v: Value)
    decreases v
  {
    match v
    case Arr(es) =>
      forall i :: 0 <= i < |es| && IsChildKey(es[i].key) ==> !IsDotKey(es[i].key) && NoDotChildren(es[i].val)
    case _ => true
  }

  /** Normalisation removes every `.` child key. */
  lemma {:induction false} DrupalizedHasNoDotChildren(v: Value)
    ensures NoDotChildren(Drupalized(v))
    decreases v
  {
    if v.Arr? {
      var es := v.entries;
      var r := Drupalized(v).entries;
      forall i | 0 <= i < |r| && IsChildKey(r[i].key)
        ensures !IsDotKey(r[i].key) && NoDotChildren(r[i].val)
      {
        assert r[i] == DrupalizedEntry(es[i]);
        assert IsChildKey(es[i].key);
        DrupalizedHasNoDotChildren(es[i].val);
      }
    }
  }

  /** Normalisation keeps every slot where it was and its value's kind. */
  lemma {:induction false} DrupalizedKeepsPositions(v: Value)
    ensures Drupalized(v).Arr? == v.Arr?
    ensures v.Arr? ==> |Drupalized(v).entries| == |v.entries|
    ensures v.Arr? ==> forall i :: 0 <= i < |v.entries| ==>
              var e, d := v.entries[i], Drupalized(v).entries[i];
              (IsChildKey(e.key) ==> d.key == (if IsDotKey(e.key) then HashKey(e.key) else e.key)) &&
              (!IsChildKey(e.key) ==> d == e)
    ensures !v.Arr? ==> Drupalized(v) == v
  {
  }

  /** Normalising twice is normalising once. */
  lemma {:induction false} DrupalizedIdempotent(v: Value)
    ensures Drupalized(Drupalized(v)) == Drupalized(v)
    decreases v
  {
    if v.Arr? {
      var es := v.entries;
      var d := Drupalized(v).entries;
      var dd := Drupalized(Drupalized(v)).entries;
      assert |dd| == |d| == |es|;
      forall i | 0 <= i < |es| ensures dd[i] == d[i] {
        var e := es[i];
        assert d[i] == DrupalizedEntry(e);
        assert dd[i] == DrupalizedEntry(d[i]);
        if IsChildKey(e.key) {
          if !IsDotKey(e.key) {
            DrupalizedIdempotent(e.val);
          }
        }
      }
    }
  }

  /** The array after the first few children named in `done` are normalised. */
  function PartlyDrupalized(es: seq<Entry>, done: seq<string>): (r: seq<Entry>)
    ensures |r| == |es|
  {
    seq(|es|, p requires 0 <= p < |es| => if es[p].key in done then DrupalizedEntry(es[p]) else es[p])
  }

  /** Renaming some dot keys keeps the keys distinct, and the key a dot child
      not yet renamed would get is still free. */
  lemma PartlyDrupalizedKeys(es: seq<Entry>, done: seq<string>)
    requires Normalizable(Arr(es))
    ensures UniqueKeys(PartlyDrupalized(es, done))
    ensures forall p :: 0 <= p < |es| && IsDotKey(es[p].key) && es[p].key !in done ==>
              HashKey(es[p].key) !in Keys(PartlyDrupalized(es, done))
  {
    var r := PartlyDrupalized(es, done);
    forall p, q | 0 <= p < q < |es| ensures r[p].key != r[q].key {
      var a, b := es[p].key, es[q].key;
      if IsDotKey(a) && IsDotKey(b) && HashKey(a) == HashKey(b) {
        HashKeyInjective(a, b);
      }
      if IsDotKey(a) && a in done && IsChildKey(a) {
        assert HashKey(a) !in Keys(es);
        assert Keys(es)[q] == b;
      }
      if IsDotKey(b) && b in done && IsChildKey(b) {
        assert HashKey(b) !in Keys(es);
        assert Keys(es)[p] == a;
      }
    }
    forall p | 0 <= p < |es| && IsDotKey(es[p].key) && es[p].key !in done
      ensures HashKey(es[p].key) !in Keys(r)
    {
      var h := HashKey(es[p].key);
      forall q | 0 <= q < |es| ensures r[q].key != h {
        var b := es[q].key;
        if IsDotKey(b) && b in done && HashKey(b) == h {
          HashKeyInjective(b, es[p].key);
        }
        assert Keys(es)[q] == b;
      }
    }
  }

  /** One more child `key`, found at `p`, joins the normalised ones: before
      the step its slot is untouched and is the only one with that key. */
  lemma PartlyDrupalizedStep(es: seq<Entry>, done: seq<string>, key: string, p: nat)
    requires Normalizable(Arr(es))
    requires p < |es| && es[p].key == key && IsChildKey(key) && key !in done
    ensures var cur := PartlyDrupalized(es, done);
            cur[p] == es[p] && UniqueKeys(cur) && IndexOf(cur, key) == Some(p) &&
            (IsDotKey(key) ==> HashKey(key) !in Keys(cur)) &&
            PartlyDrupalized(es, done + [key]) == cur[p := DrupalizedEntry(es[p])]
  {
    var cur := PartlyDrupalized(es, done);
    PartlyDrupalizedKeys(es, done);
    assert forall q :: 0 <= q < |es| && q != p ==> cur[q].key != key;
    IndexOfAt(cur, key, p);
    var next := PartlyDrupalized(es, done + [key]);
    forall q | 0 <= q < |es| ensures next[q] == cur[p := DrupalizedEntry(es[p])][q] {
      if q != p {
        assert es[q].key != key;
      }
    }
  }

  /** Once every child is done, the array is normalised. */
  lemma PartlyDrupalizedAll(es: seq<Entry>)
    ensures PartlyDrupalized(es, ChildKeys(es)) == Drupalized(Arr(es)).entries
  {
    ChildKeysMembers(es);
    forall q | 0 <= q < |es| ensures PartlyDrupalized(es, ChildKeys(es))[q] == DrupalizedEntry(es[q]) {
      assert Keys(es)[q] == es[q].key;
    }
  }

  /** A normalisable array keeps its keys distinct once normalised. */
  lemma DrupalizedUniqueKeys(v: Value)
    requires Normalizable(v)
    ensures v.Arr? ==> Drupalized(v).Arr? && UniqueKeys(Drupalized(v).entries)
  {
    if v.Arr? {
      PartlyDrupalizedAll(v.entries);
      PartlyDrupalizedKeys(v.entries, ChildKeys(v.entries));
    }
  }

  /** A normalised tree can be normalised again: its keys stay distinct, no
      `.` child is left to rename, and every child value qualifies in turn. */
  lemma {:induction false} DrupalizedNormalizable(v: Value)
    requires Normalizable(v)
    ensures Normalizable(Drupalized(v))
    decreases v
  {
    if v.Arr? {
      var es := v.entries;
      var d := Drupalized(v).entries;
      DrupalizedUniqueKeys(v);
      forall i | 0 <= i < |d| && IsChildKey(d[i].key) ensures Normalizable(d[i].val) {
        assert d[i] == DrupalizedEntry(es[i]);
        assert IsChildKey(es[i].key);
        DrupalizedNormalizable(es[i].val);
      }
      forall i | 0 <= i < |d| ensures !IsDotKey(d[i].key) {
        assert d[i] == DrupalizedEntry(es[i]);
      }
    }
  }

  /** `drupalizeElements(&$element)`: for each child key in order, rename a
      `.` key in place through `arrayRenameKey` and normalise an array value
      through the reference `$el` that still points at the renamed slot. The
      by-reference parameter is modelled as the value in and the value out. */
  method DrupalizeElements(element: Value) returns (result: Value)
    requires Normalizable(element)
    ensures result == Drupalized(element)
    decreases element
  {
    if !element.Arr? {
      return element;
    }
    var es := element.entries;
    var kids := ChildKeys(es);
    ChildKeysMembers(es);
    ChildKeysDistinct(es);
    var cur := es;
    assert cur == PartlyDrupalized(es, kids[..0]);
    for j := 0 to |kids|
      invariant cur == PartlyDrupalized(es, kids[..j])
    {
      var key := kids[j];
      var p := IndexOf(es, key).value;
      assert kids[..j + 1] == kids[..j] + [key];
      PartlyDrupalizedStep(es, kids[..j], key, p);
      ghost var target := cur[p := DrupalizedEntry(es[p])];
      if IsDotKey(key) {
        cur := ArrayRenameKey(cur, key, HashKey(key));
      }
      var el := cur[p].val;
      assert el == es[p].val;
      if el.Arr? {
        el := DrupalizeElements(el);
        cur := cur[p := Entry(cur[p].key, el)];
      }
      assert cur == target;
    }
    assert kids[..|kids|] == kids;
    PartlyDrupalizedAll(es);
    return Arr(cur);
  }
}
