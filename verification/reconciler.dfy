/**
 Reconciliation of the record store with a fresh physical scan
 (`merge_file_records`): vanished files become tombstones, changed files are
 reset for re-verification, new files are added, and the result is listed in
 path order.
 */
module Reconciler {
  import opened PathOrder
  import opened Records

  /**
   What becomes of one path, given its previous record (if any) and the mtime
   the scan observed for it (if any). `None` means the path is not in the
   merged store.
   */
  function MergeRecord(previous: Option<Record>, mtime: Option<int>): Option<Record>
  {
    match (previous, mtime)
    case (Some(r), None) =>
      if r.result != Deleted then Some(Record(Deleted, r.timestamp)) else None
    case (Some(r), Some(t)) =>
      if r.timestamp != t then Some(Record(Unchecked, t)) else Some(r)
    case (None, Some(t)) => Some(Record(Unchecked, t))
    case (None, None) => None
  }

  /** The paths whose record is anything but a tombstone. */
  function LivePaths(files: Files): (live: set<string>)
    ensures forall p :: p in live <==> p in files && files[p].result != Deleted
  {
    set p | p in files && files[p].result != Deleted
  }

  /** The merged store as a mapping, path by path. */
  function Merge(existing: Files, physical: Snapshot): (merged: Files)
    ensures merged.Keys == physical.Keys + LivePaths(existing)
    // every scanned path carries the scanned mtime
    ensures forall p :: p in physical ==> merged[p].timestamp == physical[p]
    // a vanished path is a tombstone with its old timestamp
    ensures forall p :: p in merged && p !in physical ==>
      p in existing && merged[p] == Record(Deleted, existing[p].timestamp)
    // a new path is unchecked
    ensures forall p :: p in physical && p !in existing ==> merged[p] == Record(Unchecked, physical[p])
    // a changed path is unchecked, whatever it was
    ensures forall p :: p in physical && p in existing && existing[p].timestamp != physical[p] ==>
      merged[p] == Record(Unchecked, physical[p])
    // an unchanged path keeps its record, tombstones included
    ensures forall p :: p in physical && p in existing && existing[p].timestamp == physical[p] ==>
      merged[p] == existing[p]
  {
    map p | p in existing.Keys + physical.Keys && MergeRecord(Get(existing, p), Get(physical, p)).Some?
      :: MergeRecord(Get(existing, p), Get(physical, p)).value
  }

  /** Two stores that agree on every path are the same store. */
  lemma FilesExt(a: Files, b: Files)
    requires forall p :: Get(a, p) == Get(b, p)
    ensures a == b
  {
    assert a.Keys == b.Keys by {
      forall p ensures p in a <==> p in b {
        assert Get(a, p).Some? == Get(b, p).Some?;
      }
    }
    forall p | p in a ensures a[p] == b[p] {
      assert Get(a, p) == Get(b, p);
    }
  }

  /** Per path, `Merge` is the policy `MergeRecord`. */
  lemma MergeAt(existing: Files, physical: Snapshot, p: string)
    ensures Get(Merge(existing, physical), p) == MergeRecord(Get(existing, p), Get(physical, p))
  {
  }

  /** The path of `files` least in path order. */
  method LeastPath(files: Files) returns (least: string)
    requires files != map[]
    ensures least in files
    ensures forall p :: p in files && p != least ==> Less(least, p)
  {
    var todo := files.Keys;
    least :| least in todo;
    todo := todo - {least};
    while todo != {}
      invariant todo <= files.Keys && least in files && least !in todo
      invariant forall p :: p in files && p !in todo && p != least ==> Less(least, p)
      decreases |todo|
    {
      var p :| p in todo;
      if Less(p, least) {
        forall q | q in files && q !in todo && q != least
          ensures Less(p, q)
        {
          LessTransitive(p, least, q);
        }
        least := p;
      } else {
        LessTotal(p, least);
      }
      todo := todo - {p};
    }
  }

  /**
   Progress of the sort: `items` lists, in increasing order, exactly the paths
   of `files` not in `rest`, and each of them sorts before every path of `rest`.
   */
  ghost predicate SortInvariant(files: Files, rest: Files, items: Items)
  {
    && rest.Keys <= files.Keys
    && (forall p :: p in rest ==> rest[p] == files[p])
    && SortedByPath(items)
    && (forall i, p :: 0 <= i < |items| && p in rest ==> Less(items[i].0, p))
    && ToMap(items) == files - rest.Keys
    && |items| + |rest| == |files|
  }

  /** Moving the least remaining path to the end of the items keeps the sort's invariant. */
  lemma SortStep(files: Files, rest: Files, items: Items, p: string)
    requires SortInvariant(files, rest, items)
    requires p in rest && forall q :: q in rest && q != p ==> Less(p, q)
    ensures SortInvariant(files, rest - {p}, items + [(p, rest[p])])
  {
    var x := (p, rest[p]);
    var rest' := rest - {p};
    SortedAppend(items, x);
    SortStepBound(items, rest, p);
    SortStepMap(files, rest, items, p);
    assert |rest'| == |rest| - 1;
  }

  lemma SortStepMap(files: Files, rest: Files, items: Items, p: string)
    requires p in rest && rest.Keys <= files.Keys && rest[p] == files[p]
    requires ToMap(items) == files - rest.Keys
    ensures ToMap(items + [(p, rest[p])]) == files - (rest - {p}).Keys
  {
    ToMapAppend(items, (p, rest[p]));
    assert files - (rest - {p}).Keys == (files - rest.Keys)[p := files[p]];
  }

  lemma SortStepBound(items: Items, rest: Files, p: string)
    requires p in rest && forall q :: q in rest && q != p ==> Less(p, q)
    requires forall i, q :: 0 <= i < |items| && q in rest ==> Less(items[i].0, q)
    ensures forall i, q :: 0 <= i < |items| + 1 && q in rest - {p} ==> Less((items + [(p, rest[p])])[i].0, q)
  {
    var items' := items + [(p, rest[p])];
    forall i, q | 0 <= i < |items'| && q in rest - {p}
      ensures Less(items'[i].0, q)
    {
      if i < |items| {
        assert items'[i] == items[i];
      }
    }
  }

  /** `sorted(files.items())`: the store's items in strictly increasing path order. */
  method SortByPath(files: Files) returns (items: Items)
    ensures SortedByPath(items)
    ensures ToMap(items) == files
    ensures |items| == |files|
  {
    var rest := files;
    items := [];
    assert files - rest.Keys == map[];
    while rest != map[]
      invariant SortInvariant(files, rest, items)
      decreases |rest|
    {
      var p := LeastPath(rest);
      SortStep(files, rest, items, p);
      items := items + [(p, rest[p])];
      rest := rest - {p};
    }
    assert files - rest.Keys == files;
  }

  /**
   `merge_file_records`: its two passes (existing records, then scanned
   paths), followed by the sort.
   */
  method MergeFileRecords(existing: Files, physical: Snapshot) returns (items: Items)
    ensures SortedByPath(items)
    ensures ToMap(items) == Merge(existing, physical)
  {
    var merged := MergeExisting(existing, physical);
    merged := AddScanned(existing, physical, merged);
    forall p ensures Get(merged, p) == Get(Merge(existing, physical), p) {
      MergeAt(existing, physical, p);
    }
    FilesExt(merged, Merge(existing, physical));
    items := SortByPath(merged);
  }

  /** The first pass: every previous record is kept, reset, tombstoned or dropped. */
  method MergeExisting(existing: Files, physical: Snapshot) returns (merged: Files)
    ensures forall p :: p in merged ==> p in existing
    ensures forall p :: p in existing ==>
      Get(merged, p) == MergeRecord(Get(existing, p), Get(physical, p))
  {
    merged := map[];
    var todo := existing.Keys;
    while todo != {}
      invariant todo <= existing.Keys
      invariant forall p :: p in merged ==> p in existing && p !in todo
      invariant forall p :: p in existing && p !in todo ==>
        Get(merged, p) == MergeRecord(Get(existing, p), Get(physical, p))
      decreases |todo|
    {
      var p :| p in todo;
      var record := existing[p];
      if p !in physical {
        if record.result != Deleted {
          merged := merged[p := Record(Deleted, record.timestamp)];
        }
      } else {
        var updated := record;
        if record.timestamp != physical[p] {
          updated := Record(Unchecked, physical[p]);
        }
        merged := merged[p := updated];
      }
      todo := todo - {p};
    }
  }

  /** The second pass: every scanned path not yet in the store is added as unchecked. */
  method AddScanned(existing: Files, physical: Snapshot, first: Files) returns (merged: Files)
    requires forall p :: p in first ==> p in existing
    requires forall p :: p in existing ==>
      Get(first, p) == MergeRecord(Get(existing, p), Get(physical, p))
    ensures forall p :: p in merged ==> p in existing || p in physical
    ensures forall p :: p in existing || p in physical ==>
      Get(merged, p) == MergeRecord(Get(existing, p), Get(physical, p))
  {
    merged := first;
    var scanned := physical.Keys;
    while scanned != {}
      invariant scanned <= physical.Keys
      invariant forall p :: p in merged ==> p in existing || (p in physical && p !in scanned)
      invariant forall p :: p in existing ==>
        Get(merged, p) == MergeRecord(Get(existing, p), Get(physical, p))
      invariant forall p :: p in physical && p !in scanned ==>
        Get(merged, p) == MergeRecord(Get(existing, p), Get(physical, p))
      decreases |scanned|
    {
      var p :| p in scanned;
      if p !in merged {
        merged := merged[p := Record(Unchecked, physical[p])];
      }
      scanned := scanned - {p};
    }
  }

  /** A tombstone whose file is still absent is dropped from the store, not retained. */
  lemma TombstoneOfAbsentFileDropped(existing: Files, physical: Snapshot, p: string)
    requires p in existing && existing[p].result == Deleted && p !in physical
    ensures p !in Merge(existing, physical)
  {
  }

  /** A tombstone whose file reappears with the mtime it had stays a tombstone. */
  lemma TombstoneWithSameMtimeStays(existing: Files, physical: Snapshot, p: string)
    requires p in existing && existing[p].result == Deleted
    requires p in physical && physical[p] == existing[p].timestamp
    ensures Merge(existing, physical)[p] == Record(Deleted, existing[p].timestamp)
  {
  }

  /**
   Merging against the snapshot just merged against changes no scanned path's
   record, and drops the tombstones the first merge made, so the second store
   holds exactly the scanned paths.
   */
  lemma ReMerge(existing: Files, physical: Snapshot)
    ensures var once := Merge(existing, physical);
      var twice := Merge(once, physical);
      && twice.Keys == physical.Keys
      && forall p :: p in physical ==> twice[p] == once[p] && twice[p].timestamp == physical[p]
  {
  }

  /** A store holding exactly the scanned paths, each at its scanned mtime, is left as it is. */
  lemma MergeOfAgreeingStore(files: Files, physical: Snapshot)
    requires files.Keys == physical.Keys
    requires forall p :: p in files ==> files[p].timestamp == physical[p]
    ensures Merge(files, physical) == files
  {
  }

  /** From the second merge on, merging against an unchanged snapshot is the identity. */
  lemma ReMergeStable(existing: Files, physical: Snapshot)
    ensures var twice := Merge(Merge(existing, physical), physical);
      Merge(twice, physical) == twice
  {
    var twice := Merge(Merge(existing, physical), physical);
    ReMerge(existing, physical);
    MergeOfAgreeingStore(twice, physical);
  }
}
