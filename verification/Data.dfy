/** Model of internal/data/data.go: the persistent environment that matchers extend and replacers read. */
module Data {
  import opened Wrappers

  datatype Data<K(==), V> =
    | New
    | With(parent: Data<K, V>, key: K, value: V)
    | Indexed(keys: seq<K>, items: map<K, V>)
  {
    function Keys(): seq<K> {
      match this
      case New => []
      case With(parent, key, _) => parent.Keys() + [key]
      case Indexed(keys, _) => keys
    }

    function Value(k: K): Option<V> {
      match this
      case New => None
      case With(parent, key, value) => if k == key then Some(value) else parent.Value(k)
      case Indexed(_, items) => if k in items then Some(items[k]) else None
    }

    /** Every table in the chain was filled for exactly its keys, as `Index` does. */
    predicate WellKeyed() {
      match this
      case New => true
      case With(parent, _, _) => parent.WellKeyed()
      case Indexed(keys, items) => (forall k | k in keys :: k in items) && (forall k | k in items :: k in keys)
    }
  }

  lemma {:induction false} KeysAreExactlyTheBound<K, V>(d: Data<K, V>, k: K)
    requires d.WellKeyed()
    ensures k in d.Keys() <==> d.Value(k).Some?
  {
    if d.With? {
      KeysAreExactlyTheBound(d.parent, k);
      assert k in d.Keys() <==> k in d.parent.Keys() || k == d.key;
    }
  }

  /** Copies the environment into a table; every lookup, shadowed keys included, answers as before. */
  method Index<K(!new), V>(d: Data<K, V>) returns (r: Data<K, V>)
    requires d.WellKeyed()
    ensures r.Indexed? && r.WellKeyed()
    ensures r.Keys() == d.Keys()
    ensures forall k :: r.Value(k) == d.Value(k)
    ensures d.Indexed? ==> r == d
  {
    if d.Indexed? {
      return d;
    }
    var keys := d.Keys();
    var items: map<K, V> := map[];
    for i := 0 to |keys|
      invariant forall k :: k in items ==> k in keys && d.Value(k) == Some(items[k])
      invariant forall j | 0 <= j < i :: keys[j] in items
    {
      KeysAreExactlyTheBound(d, keys[i]);
      items := items[keys[i] := d.Value(keys[i]).value];
    }
    r := Indexed(keys, items);
    forall k
      ensures r.Value(k) == d.Value(k)
    {
      KeysAreExactlyTheBound(d, k);
    }
  }
}
