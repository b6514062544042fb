/**
 * The slice of the form library's state the hook touches: the `values` object, keyed by
 * row id, read through `getState().values[row]` and written through `change(row, value)`.
 */
module FormStore {
  import opened Wrappers

  /** A stored value: the `null` the hook writes on removal, or a row's field values. */
  datatype Cell<V> = Null | Val(fields: V)

  type Store<R(==), V> = map<R, Cell<V>>

  /** `getState().values[key]`: `None` stands for `undefined`. */
  function Get<R(==), V>(st: Store<R, V>, key: R): (r: Option<Cell<V>>)
    ensures r.None? <==> key !in st
    ensures r.Some? ==> st[key] == r.value
  {
    if key in st then Some(st[key]) else None
  }

  /** `change(key, value)`: writing `undefined` leaves the key without a value. */
  function Change<R(==), V>(st: Store<R, V>, key: R, value: Option<Cell<V>>): (st': Store<R, V>)
    // the written key reads back what was written ...
    ensures Get(st', key) == value
    // ... and no other key is touched
    ensures st' - {key} == st - {key}
  {
    match value
    case Some(c) => st[key := c]
    case None => st - {key}
  }

  /** A later write to the same key wins. */
  lemma ChangeOverwrites<R, V>(st: Store<R, V>, key: R, a: Option<Cell<V>>, b: Option<Cell<V>>)
    ensures Change(Change(st, key, a), key, b) == Change(st, key, b)
  {
    var l := Change(Change(st, key, a), key, b);
    var r := Change(st, key, b);
    forall k
      ensures k in l <==> k in r
      ensures k in l ==> l[k] == r[k]
    {
      assert Get(l, k) == Get(r, k);
    }
  }

  /** Writing back the value a key already holds changes nothing. */
  lemma ChangeSameValue<R, V>(st: Store<R, V>, key: R)
    ensures Change(st, key, Get(st, key)) == st
  {
    var l := Change(st, key, Get(st, key));
    forall k
      ensures k in l <==> k in st
      ensures k in l ==> l[k] == st[k]
    {
      assert Get(l, k) == Get(st, k);
    }
  }

  /** Two stores that agree outside `a` agree outside any larger set of keys. */
  lemma AgreeOutside<R, V>(st1: Store<R, V>, st2: Store<R, V>, a: set<R>, b: set<R>)
    requires st1 - a == st2 - a && a <= b
    ensures st1 - b == st2 - b
  {
    assert st1 - b == (st1 - a) - b;
    assert st2 - b == (st2 - a) - b;
  }
}
