/**
 The record store's data: one record per tracked path, holding the last
 verification verdict and the modification time it was taken against.
 */
module Records {
  import opened PathOrder

  datatype Option<T> = None | Some(value: T)

  /** The five values the `result` field of a stored record takes. */
  datatype Result = Unchecked | Success | Failure | Encrypted | Deleted

  /** A stored record; `timestamp` is the file's modification time in nanoseconds. */
  datatype Record = Record(result: Result, timestamp: int)

  /** The `files` member of the store: path to record. */
  type Files = map<string, Record>

  /** A physical scan: path to modification time. */
  type Snapshot = map<string, int>

  /** The store's `files` member in its persisted order: a sequence of (path, record) items. */
  type Items = seq<(string, Record)>

  /** `m.get(k)` */
  function Get<K, V>(m: map<K, V>, k: K): (r: Option<V>)
    ensures r.Some? <==> k in m
    ensures r.Some? ==> r.value == m[k]
  {
    if k in m then Some(m[k]) else None
  }

  function Paths(items: Items): (paths: seq<string>)
    ensures |paths| == |items|
    ensures forall i :: 0 <= i < |items| ==> paths[i] == items[i].0
  {
    seq(|items|, i requires 0 <= i < |items| => items[i].0)
  }

  /** Items listed in strictly increasing path order. */
  ghost predicate SortedByPath(items: Items)
  {
    StrictlySorted(Paths(items))
  }

  /**
   The mapping a sequence of items denotes; building an ordered dictionary
   from items keeps, for a repeated path, the last record given for it.
   */
  function ToMap(items: Items): (m: Files)
    ensures forall p :: p in m <==> exists i :: 0 <= i < |items| && items[i].0 == p
  {
    if |items| == 0 then map[]
    else
      var last := items[|items| - 1];
      var m := ToMap(items[..|items| - 1]);
      assert forall i :: 0 <= i < |items| - 1 ==> items[..|items| - 1][i] == items[i];
      m[last.0 := last.1]
  }

  /** In a sorted item sequence every item is what the mapping holds for its path. */
  lemma {:induction false} ToMapAt(items: Items, i: int)
    requires SortedByPath(items)
    requires 0 <= i < |items|
    ensures items[i].0 in ToMap(items) && ToMap(items)[items[i].0] == items[i].1
    decreases |items|
  {
    var n := |items| - 1;
    if i < n {
      assert Less(Paths(items)[i], Paths(items)[n]);
      LessIrreflexive(items[i].0);
      var init := items[..n];
      assert SortedByPath(init) by {
        forall a, b | 0 <= a < b < |init|
          ensures Less(Paths(init)[a], Paths(init)[b])
        {
          assert Less(Paths(items)[a], Paths(items)[b]);
        }
      }
      ToMapAt(init, i);
    }
  }

  lemma ToMapAppend(items: Items, x: (string, Record))
    ensures ToMap(items + [x]) == ToMap(items)[x.0 := x.1]
  {
    assert (items + [x])[..|items|] == items;
  }

  /** An item whose path follows every listed path may be appended without breaking the order. */
  lemma SortedAppend(items: Items, x: (string, Record))
    requires SortedByPath(items)
    requires forall i :: 0 <= i < |items| ==> Less(items[i].0, x.0)
    ensures SortedByPath(items + [x])
  {
    var items' := items + [x];
    forall a, b | 0 <= a < b < |items'|
      ensures Less(Paths(items')[a], Paths(items')[b])
    {
      if b < |items| {
        assert Less(Paths(items)[a], Paths(items)[b]);
      }
    }
  }
}
