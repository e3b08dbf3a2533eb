/** Drupal 7's `element_children` with its default `$sort = FALSE`: the keys of
    an element that name child elements rather than `#` properties, in
    insertion order. The `#weight` sorting branch is not part of this model. */
module DrupalElements {
  import opened PhpValues

  /** A key names a child unless it starts with `#`; the empty key is a child. */
  predicate IsChildKey(k: string) {
    k == "" || k[0] != '#'
  }

  function ChildKeys(es: seq<Entry>): (r: seq<string>)
    decreases |es|
  {
    if es == [] then []
    else ChildKeys(es[..|es| - 1]) + (if IsChildKey(es[|es| - 1].key) then [es[|es| - 1].key] else [])
  }

  /** `element_children($v)`: nothing for a value that is not an array. */
  function ElementChildren(v: Value): seq<string> {
    if v.Arr? then ChildKeys(v.entries) else []
  }

  /** `a` is `b` with some elements left out, order kept. */
  predicate IsSubsequence(a: seq<string>, b: seq<string>)
    decreases |b|
  {
    if a == [] then true
    else if b == [] then false
    else if a[|a| - 1] == b[|b| - 1] then IsSubsequence(a[..|a| - 1], b[..|b| - 1])
    else IsSubsequence(a, b[..|b| - 1])
  }

  lemma {:induction false} SubsequenceExtend(a: seq<string>, b: seq<string>, x: string)
    requires IsSubsequence(a, b)
    ensures IsSubsequence(a, b + [x])
    ensures IsSubsequence(a + [x], b + [x])
    decreases |b|, 1
  {
    assert (b + [x])[..|b|] == b;
    assert (a + [x])[..|a|] == a;
    if a != [] && a[|a| - 1] == x {
      SubsequenceDrop(a, b);
    }
  }

  lemma {:induction false} SubsequenceDrop(a: seq<string>, b: seq<string>)
    requires a != [] && IsSubsequence(a, b)
    ensures IsSubsequence(a[..|a| - 1], b)
    decreases |b|, 0
  {
    var a', b', y := a[..|a| - 1], b[..|b| - 1], b[|b| - 1];
    assert b' + [y] == b;
    if a[|a| - 1] != y {
      SubsequenceDrop(a, b');
    }
    SubsequenceExtend(a', b', y);
  }

  /** The children are exactly the keys that are not `#` properties. */
  lemma {:induction false} ChildKeysMembers(es: seq<Entry>)
    ensures forall k :: k in ChildKeys(es) <==> IsChildKey(k) && k in Keys(es)
    decreases |es|
  {
    if es != [] {
      var init := es[..|es| - 1];
      ChildKeysMembers(init);
      assert Keys(es) == Keys(init) + [es[|es| - 1].key];
    }
  }

  /** The children keep the order the keys have in the array. */
  lemma {:induction false} ChildKeysInOrder(es: seq<Entry>)
    ensures IsSubsequence(ChildKeys(es), Keys(es))
    decreases |es|
  {
    if es != [] {
      var init, last := es[..|es| - 1], es[|es| - 1];
      ChildKeysInOrder(init);
      assert Keys(es) == Keys(init) + [last.key];
      SubsequenceExtend(ChildKeys(init), Keys(init), last.key);
      if !IsChildKey(last.key) {
        assert ChildKeys(es) == ChildKeys(init);
      }
    }
  }

  /** Distinct keys give distinct children. */
  lemma {:induction false} ChildKeysDistinct(es: seq<Entry>)
    requires UniqueKeys(es)
    ensures NoDuplicates(ChildKeys(es))
    decreases |es|
  {
    if es != [] {
      var init, last := es[..|es| - 1], es[|es| - 1];
      ChildKeysDistinct(init);
      ChildKeysMembers(init);
      assert last.key !in Keys(init);
    }
  }
}
