/**
 The selection of the paths to verify in one run (`process_directory`): the
 paths of the merged store whose result is unchecked and that still exist on
 disk, in the store's order. Whether a path exists is a parameter.
 */
module Pending {
  import opened PathOrder
  import opened Records
  import opened Reconciler
  import opened Verdict

  /** The pending paths of the persisted store items; `onDisk` stands for `Path(path).exists()`. */
  function PendingPaths(items: Items, onDisk: string -> bool): (pending: seq<string>)
    ensures forall p :: p in pending <==>
      exists i :: 0 <= i < |items| && items[i].0 == p && items[i].1.result == Unchecked && onDisk(p)
    ensures SortedByPath(items) ==> StrictlySorted(pending)
  {
    if |items| == 0 then []
    else
      var rest := PendingPaths(items[1..], onDisk);
      var pending := if items[0].1.result == Unchecked && onDisk(items[0].0) then [items[0].0] + rest else rest;
      PendingMembers(items, onDisk, rest, pending);
      assert SortedByPath(items) ==> StrictlySorted(pending) by {
        if SortedByPath(items) {
          PendingOrder(items, rest, pending);
        }
      }
      pending
  }

  /** One step of the selection keeps exactly the unchecked paths that exist. */
  lemma PendingMembers(items: Items, onDisk: string -> bool, rest: seq<string>, pending: seq<string>)
    requires |items| > 0
    requires forall p :: p in rest <==>
      exists i :: 0 <= i < |items[1..]| && items[1..][i].0 == p && items[1..][i].1.result == Unchecked && onDisk(p)
    requires pending == if items[0].1.result == Unchecked && onDisk(items[0].0) then [items[0].0] + rest else rest
    ensures forall p :: p in pending <==>
      exists i :: 0 <= i < |items| && items[i].0 == p && items[i].1.result == Unchecked && onDisk(p)
  {
    forall p
      ensures p in pending <==>
        exists i :: 0 <= i < |items| && items[i].0 == p && items[i].1.result == Unchecked && onDisk(p)
    {
      if i :| 0 <= i < |items| && items[i].0 == p && items[i].1.result == Unchecked && onDisk(p) {
        if i > 0 {
          assert items[1..][i - 1] == items[i];
        }
      }
      if j :| 0 <= j < |items[1..]| && items[1..][j].0 == p && items[1..][j].1.result == Unchecked && onDisk(p) {
        assert items[j + 1] == items[1..][j];
      }
    }
  }

  /** One step of the selection over a sorted store keeps the selection strictly increasing. */
  lemma PendingOrder(items: Items, rest: seq<string>, pending: seq<string>)
    requires |items| > 0 && SortedByPath(items)
    requires SortedByPath(items[1..]) ==> StrictlySorted(rest)
    requires forall p :: p in rest ==> exists i :: 0 <= i < |items[1..]| && items[1..][i].0 == p
    requires pending == rest || pending == [items[0].0] + rest
    ensures StrictlySorted(pending)
  {
    SortedTail(items);
    if pending != rest {
      forall a, b | 0 <= a < b < |pending|
        ensures Less(pending[a], pending[b])
      {
        if a == 0 {
          assert pending[b] == rest[b - 1] && rest[b - 1] in rest;
          var i :| 0 <= i < |items[1..]| && items[1..][i].0 == pending[b];
          assert items[1..][i] == items[i + 1];
        } else {
          assert pending[a] == rest[a - 1] && pending[b] == rest[b - 1];
        }
      }
    }
  }

  /** The items after the first of a sorted sequence are sorted, and all come after the first. */
  lemma SortedTail(items: Items)
    requires |items| > 0 && SortedByPath(items)
    ensures SortedByPath(items[1..])
    ensures forall i :: 1 <= i < |items| ==> Less(items[0].0, items[i].0)
  {
    forall a, b | 0 <= a < b < |items| - 1
      ensures Less(Paths(items[1..])[a], Paths(items[1..])[b])
    {
      assert Less(Paths(items)[a + 1], Paths(items)[b + 1]);
    }
    forall i | 1 <= i < |items|
      ensures Less(items[0].0, items[i].0)
    {
      assert Less(Paths(items)[0], Paths(items)[i]);
    }
  }

  /** In a sorted item sequence, a path is listed unchecked exactly when the mapping holds it unchecked. */
  lemma ListedUnchecked(items: Items, p: string)
    requires SortedByPath(items)
    ensures (exists i :: 0 <= i < |items| && items[i].0 == p && items[i].1.result == Unchecked)
        <==> p in ToMap(items) && ToMap(items)[p].result == Unchecked
  {
    var m := ToMap(items);
    if p in m {
      var i :| 0 <= i < |items| && items[i].0 == p;
      ToMapAt(items, i);
      assert m[p] == items[i].1;
      forall j | 0 <= j < |items| && items[j].0 == p
        ensures items[j].1 == m[p]
      {
        ToMapAt(items, j);
      }
    }
  }

  /**
   After a merge, a path is pending exactly when it was scanned, still exists,
   and is new, changed, or was unchecked and unchanged. A vanished path is
   never pending.
   */
  lemma PendingAfterMerge(existing: Files, physical: Snapshot, onDisk: string -> bool, items: Items)
    requires SortedByPath(items) && ToMap(items) == Merge(existing, physical)
    ensures forall p :: p in PendingPaths(items, onDisk) <==>
      && p in physical
      && onDisk(p)
      && (p !in existing || existing[p].timestamp != physical[p] || existing[p].result == Unchecked)
  {
    forall p
      ensures p in PendingPaths(items, onDisk) <==>
        && p in physical
        && onDisk(p)
        && (p !in existing || existing[p].timestamp != physical[p] || existing[p].result == Unchecked)
    {
      ListedUnchecked(items, p);
    }
  }

  /**
   A second run against an unchanged directory does not select a file whose
   test, in the run before, ended in a verdict; the first run's store is the
   merge of whatever it held before with the same scan.
   */
  lemma VerifiedFileNotPendingAgain(existing: Files, physical: Snapshot, path: string, returncode: int,
                                    output: string, exitFlag: bool, onDisk: string -> bool, items: Items)
    requires var files := Merge(existing, physical); path in files && files[path].result != Deleted
    requires returncode == 0 || IsEncrypted(output) || !exitFlag
    requires SortedByPath(items)
    requires ToMap(items) == Merge(ApplyVerdict(Merge(existing, physical), path, returncode, output, exitFlag), physical)
    ensures path !in PendingPaths(items, onDisk)
  {
    assert path in physical;
    ListedUnchecked(items, path);
  }
}
