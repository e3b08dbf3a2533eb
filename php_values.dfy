/** PHP values as the form definition holds them: scalars and ordered arrays
    (insertion-ordered key => value slots). Only string keys are modelled. */
module PhpValues {

  datatype Option<T> = None | Some(value: T)

  datatype Value =
    | Null
    | Bool(b: bool)
    | Int(i: int)
    | Str(s: string)
    | Arr(entries: seq<Entry>)

  /** One `key => value` slot of a PHP array. */
  datatype Entry = Entry(key: string, val: Value)

  function Keys(es: seq<Entry>): (r: seq<string>)
    ensures |r| == |es|
    ensures forall i :: 0 <= i < |es| ==> r[i] == es[i].key
  {
    seq(|es|, i requires 0 <= i < |es| => es[i].key)
  }

  function Values(es: seq<Entry>): (r: seq<Value>)
    ensures |r| == |es|
    ensures forall i :: 0 <= i < |es| ==> r[i] == es[i].val
  {
    seq(|es|, i requires 0 <= i < |es| => es[i].val)
  }

  predicate NoDuplicates(s: seq<string>) {
    forall i, j :: 0 <= i < j < |s| ==> s[i] != s[j]
  }

  /** A PHP array never holds the same key twice. */
  predicate UniqueKeys(es: seq<Entry>) {
    NoDuplicates(Keys(es))
  }

  /** Position of the first slot whose key is `k`. */
  function IndexOf(es: seq<Entry>, k: string): (r: Option<nat>)
    ensures r.None? <==> k !in Keys(es)
    ensures r.Some? ==> r.value < |es| && es[r.value].key == k
    ensures r.Some? ==> forall j :: 0 <= j < r.value ==> es[j].key != k
  {
    if |es| == 0 then None
    else if es[0].key == k then Some(0)
    else
      match IndexOf(es[1..], k)
      case None => None
      case Some(i) => Some(i + 1)
  }

  lemma IndexOfAt(es: seq<Entry>, k: string, p: nat)
    requires p < |es| && es[p].key == k
    requires forall j :: 0 <= j < p ==> es[j].key != k
    ensures IndexOf(es, k) == Some(p)
  {
  }

  /** The read `$v[$k]`: NULL when `v` is not an array or has no slot `k`.
      (Reading a string offset with a string key is not modelled: it yields NULL.) */
  function Lookup(v: Value, k: string): Value {
    match v
    case Arr(es) =>
      (match IndexOf(es, k)
       case Some(i) => es[i].val
       case None => Null)
    case _ => Null
  }

  /** PHP's truthiness, the negation of `empty()`. */
  predicate Truthy(v: Value) {
    match v
    case Null => false
    case Bool(b) => b
    case Int(i) => i != 0
    case Str(s) => s != "" && s != "0"
    case Arr(es) => es != []
  }

  /** `$v[$k] = $x` succeeds on arrays and turns NULL or FALSE into an array. */
  predicate Writable(v: Value) {
    v.Arr? || v == Null || v == Bool(false)
  }

  /** The write `$v[$k] = $x`: an existing slot is overwritten where it stands,
      a new key is appended; NULL and FALSE become a one-slot array. Any other
      scalar is left as it is (PHP refuses the write with a warning). */
  function SetIn(v: Value, k: string, x: Value): Value {
    match v
    case Arr(es) =>
      (match IndexOf(es, k)
       case Some(i) => Arr(es[i := Entry(k, x)])
       case None => Arr(es + [Entry(k, x)]))
    case Null => Arr([Entry(k, x)])
    case Bool(b) => if b then v else Arr([Entry(k, x)])
    case _ => v
  }

  /** After a write that takes effect, slot `k` holds `x`. */
  lemma LookupSetSame(v: Value, k: string, x: Value)
    requires Writable(v)
    ensures SetIn(v, k, x).Arr? && Lookup(SetIn(v, k, x), k) == x
  {
    if v.Arr? {
      match IndexOf(v.entries, k) {
        case Some(i) => IndexOfAt(v.entries[i := Entry(k, x)], k, i);
        case None => AppendKeepsOthers(v.entries, k, x);
      }
    } else {
      IndexOfAt([Entry(k, x)], k, 0);
    }
  }

  /** A write to `k` leaves every other key reading as before. */
  lemma LookupSetOther(v: Value, k: string, x: Value, k': string)
    requires k' != k
    ensures Lookup(SetIn(v, k, x), k') == Lookup(v, k')
  {
    if v.Arr? {
      match IndexOf(v.entries, k) {
        case Some(i) => OverwriteKeepsOthers(v.entries, i, x);
        case None => AppendKeepsOthers(v.entries, k, x);
      }
    } else if Writable(v) {
      assert k' !in Keys([Entry(k, x)]);
    }
  }

  /** A write keeps the key order; a new key goes last. */
  lemma KeysSetIn(v: Value, k: string, x: Value)
    requires v.Arr?
    ensures SetIn(v, k, x).Arr?
    ensures Keys(SetIn(v, k, x).entries) ==
            if k in Keys(v.entries) then Keys(v.entries) else Keys(v.entries) + [k]
  {
    match IndexOf(v.entries, k) {
      case Some(i) => assert Keys(v.entries[i := Entry(k, x)]) == Keys(v.entries);
      case None => assert Keys(v.entries + [Entry(k, x)]) == Keys(v.entries) + [k];
    }
  }

  lemma OverwriteKeepsOthers(es: seq<Entry>, i: nat, x: Value)
    requires i < |es|
    ensures forall k' :: k' != es[i].key ==> IndexOf(es[i := Entry(es[i].key, x)], k') == IndexOf(es, k')
  {
    var r := es[i := Entry(es[i].key, x)];
    assert Keys(r) == Keys(es);
    forall k' | k' != es[i].key ensures IndexOf(r, k') == IndexOf(es, k') {
      if IndexOf(es, k').Some? {
        IndexOfAt(r, k', IndexOf(es, k').value);
      }
    }
  }

  lemma AppendKeepsOthers(es: seq<Entry>, k: string, x: Value)
    requires k !in Keys(es)
    ensures forall k' :: k' != k ==> IndexOf(es + [Entry(k, x)], k') == IndexOf(es, k')
    ensures IndexOf(es + [Entry(k, x)], k) == Some(|es|)
  {
    var r := es + [Entry(k, x)];
    forall k' | k' != k ensures IndexOf(r, k') == IndexOf(es, k') {
      if IndexOf(es, k').Some? {
        IndexOfAt(r, k', IndexOf(es, k').value);
      } else {
        assert k' !in Keys(r);
      }
    }
    IndexOfAt(r, k, |es|);
  }
}
