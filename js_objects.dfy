/**
 * Plain JavaScript objects and arrays as the widget uses them: `sc.objectKeys`,
 * `sc.extendObj` and `sc.contains`. An object is its list of own properties in
 * enumeration order; a property name occurs at most once in a well-formed one.
 */
module JsObjects {
  import opened Wrappers

  type Object<V> = seq<(string, V)>

  /** The property names of `o`, in enumeration order. */
  function KeysOf<V>(o: Object<V>): seq<string> {
    if o == [] then [] else [o[0].0] + KeysOf(o[1..])
  }

  predicate Distinct<T(==)>(s: seq<T>) {
    forall i, j :: 0 <= i < j < |s| ==> s[i] != s[j]
  }

  /** A JavaScript object never has two own properties with the same name. */
  predicate WellFormed<V>(o: Object<V>) {
    Distinct(KeysOf(o))
  }

  /** `o[k]` for an own property `k`; `None` where JavaScript gives `undefined`. */
  function Get<V>(o: Object<V>, k: string): Option<V> {
    if o == [] then None else if o[0].0 == k then Some(o[0].1) else Get(o[1..], k)
  }

  /** `o[k] = v`: an existing property keeps its place, a new one goes last. */
  function Put<V>(o: Object<V>, k: string, v: V): Object<V> {
    if o == [] then [(k, v)]
    else if o[0].0 == k then [(k, v)] + o[1..]
    else [o[0]] + Put(o[1..], k, v)
  }

  lemma {:induction false} KeysOfShape<V>(o: Object<V>)
    ensures |KeysOf(o)| == |o|
    ensures forall i :: 0 <= i < |o| ==> KeysOf(o)[i] == o[i].0
  {
    if o != [] {
      KeysOfShape(o[1..]);
    }
  }

  /** A name is among the keys exactly when the object has that property. */
  lemma {:induction false} KeysOfHasKey<V>(o: Object<V>, k: string)
    ensures k in KeysOf(o) <==> Get(o, k).Some?
  {
    if o != [] {
      KeysOfHasKey(o[1..], k);
    }
  }

  /** A value `o[k]` finds is the value of a property named `k`. */
  lemma {:induction false} GetFound<V>(o: Object<V>, k: string)
    requires Get(o, k).Some?
    ensures exists i :: 0 <= i < |o| && o[i] == (k, Get(o, k).value)
  {
    if o[0].0 == k {
      assert o[0] == (k, Get(o, k).value);
    } else {
      GetFound(o[1..], k);
      var i :| 0 <= i < |o[1..]| && o[1..][i] == (k, Get(o, k).value);
      assert o[i + 1] == o[1..][i];
    }
  }

  /** In a well-formed object, `o[k]` is the value of the one property named `k`. */
  lemma {:induction false} GetAt<V>(o: Object<V>, i: nat)
    requires WellFormed(o) && i < |o|
    ensures Get(o, o[i].0) == Some(o[i].1)
  {
    if i > 0 {
      KeysOfShape(o);
      KeysOfShape(o[1..]);
      assert o[0].0 != o[i].0 by {
        assert KeysOf(o)[0] != KeysOf(o)[i];
      }
      forall a, b | 0 <= a < b < |o[1..]| ensures KeysOf(o[1..])[a] != KeysOf(o[1..])[b] {
        assert KeysOf(o)[a + 1] != KeysOf(o)[b + 1];
      }
      GetAt(o[1..], i - 1);
      assert o[1..][i - 1] == o[i];
    }
  }

  /** Every property named `k` of a well-formed object holds the value `o[k]` reads. */
  lemma {:induction false} GetAtKey<V>(o: Object<V>, k: string)
    ensures WellFormed(o) ==> forall i :: 0 <= i < |o| && o[i].0 == k ==> Get(o, k) == Some(o[i].1)
  {
    if WellFormed(o) {
      forall i | 0 <= i < |o| && o[i].0 == k ensures Get(o, k) == Some(o[i].1) {
        GetAt(o, i);
      }
    }
  }

  /** Reading back a property just written gives the new value; every other property is untouched. */
  lemma {:induction false} GetPut<V>(o: Object<V>, k: string, v: V, k2: string)
    ensures Get(Put(o, k, v), k2) == if k2 == k then Some(v) else Get(o, k2)
  {
    if o != [] && o[0].0 != k {
      GetPut(o[1..], k, v, k2);
    }
  }

  /** Writing a property keeps the old names in place and adds the new one last if it is new. */
  lemma {:induction false} KeysOfPut<V>(o: Object<V>, k: string, v: V)
    ensures KeysOf(Put(o, k, v)) == if k in KeysOf(o) then KeysOf(o) else KeysOf(o) + [k]
  {
    if o != [] && o[0].0 != k {
      KeysOfPut(o[1..], k, v);
      assert KeysOf(Put(o, k, v)) == [o[0].0] + KeysOf(Put(o[1..], k, v));
    }
  }

  lemma {:induction false} PutWellFormed<V>(o: Object<V>, k: string, v: V)
    requires WellFormed(o)
    ensures WellFormed(Put(o, k, v))
  {
    KeysOfPut(o, k, v);
  }

  /** `sc.objectKeys`: pushes every own property name in turn. */
  method ObjectKeys<V>(o: Object<V>) returns (keys: seq<string>)
    ensures |keys| == |o|
    ensures forall i :: 0 <= i < |o| ==> keys[i] == o[i].0
    ensures keys == KeysOf(o)
  {
    KeysOfShape(o);
    keys := [];
    for i := 0 to |o|
      invariant keys == KeysOf(o)[..i]
    {
      keys := keys + [o[i].0];
    }
  }

  /**
   * `sc.extendObj(first, second)`: every own property of `second` is assigned
   * onto `first`, so the result has the properties of both and `second` wins
   * where both have one.
   */
  method ExtendObj<V>(first: Object<V>, second: Object<V>) returns (r: Object<V>)
    requires WellFormed(first) && WellFormed(second)
    ensures WellFormed(r)
    ensures forall k :: Get(r, k) == if Get(second, k).Some? then Get(second, k) else Get(first, k)
  {
    r := first;
    for i := 0 to |second|
      invariant WellFormed(r)
      invariant forall k :: Get(r, k) == if Get(second[..i], k).Some? then Get(second[..i], k) else Get(first, k)
    {
      PutWellFormed(r, second[i].0, second[i].1);
      forall k ensures Get(Put(r, second[i].0, second[i].1), k)
        == if Get(second[..i + 1], k).Some? then Get(second[..i + 1], k) else Get(first, k)
      {
        GetPut(r, second[i].0, second[i].1, k);
        GetLast(second[..i + 1], k);
        assert second[..i + 1][..i] == second[..i];
        NewKeyAbsent(second, i);
      }
      r := Put(r, second[i].0, second[i].1);
    }
    assert second[..|second|] == second;
  }

  /** In a well-formed object no property before the `i`-th has its name. */
  lemma {:induction false} NewKeyAbsent<V>(o: Object<V>, i: nat)
    requires WellFormed(o) && i < |o|
    ensures Get(o[..i], o[i].0).None?
  {
    KeysOfShape(o);
    KeysOfShape(o[..i]);
    forall j | 0 <= j < i ensures KeysOf(o[..i])[j] != o[i].0 {
      assert KeysOf(o)[j] != KeysOf(o)[i];
    }
    KeysOfHasKey(o[..i], o[i].0);
  }

  /** Looking a name up in a list extended by one property: the later property wins only where the earlier ones say nothing. */
  lemma {:induction false} GetLast<V>(o: Object<V>, k: string)
    requires o != []
    ensures var p := o[..|o| - 1];
      Get(o, k) == if Get(p, k).Some? then Get(p, k) else if o[|o| - 1].0 == k then Some(o[|o| - 1].1) else None
  {
    if |o| > 1 {
      GetLast(o[1..], k);
      assert o[1..][..|o| - 2] == o[..|o| - 1][1..];
    }
  }

  /** `sc.contains`: walks the array from its last element down to its first. */
  method Contains<T(==)>(a: seq<T>, item: T) returns (found: bool)
    ensures found <==> item in a
  {
    var i := |a|;
    while i > 0
      invariant 0 <= i <= |a|
      invariant item !in a[i..]
    {
      i := i - 1;
      if a[i] == item {
        return true;
      }
    }
    return false;
  }
}
