/** Listing and resolving rollback targets (internal/app/server.go): two partial histories, the
    stored snapshots and a backwards walk of etcd, merged into pages. */
module Rollback {
  import opened Store
  import opened Ordering
  import opened History
  import opened EtcdWalk

  datatype Source = Storage | FromEtcd

  datatype Candidate = Candidate(entry: Entry, source: Source, capturedAt: int)

  // ----- Merging the two sources -----

  ghost predicate FromSnapshots(c: Candidate, snapshots: seq<Snapshot>) {
    exists i :: 0 <= i < |snapshots| && c == Candidate(snapshots[i].entry, Storage, snapshots[i].capturedAt)
  }

  ghost predicate FromEntries(c: Candidate, entries: seq<Entry>) {
    exists i :: 0 <= i < |entries| && c == Candidate(entries[i], FromEtcd, 0)
  }

  /** A merged candidate: the stored copy if there is one, else the etcd version. */
  ghost predicate Merged(c: Candidate, snapshots: seq<Snapshot>, entries: seq<Entry>) {
    if c.entry.modRevision in StoredRevisions(snapshots) then FromSnapshots(c, snapshots) else FromEntries(c, entries)
  }

  ghost predicate MergeSpec(snapshots: seq<Snapshot>, entries: seq<Entry>, compacted: bool, limit: nat,
                            r: Result<(seq<Candidate>, bool), StoreError>)
  {
    var all := StoredRevisions(snapshots) + EntryRevisions(entries);
    if all == {} && compacted then r == Err(Compacted)
    else
      && r.Ok?
      && r.value.1 == (|all| > limit)
      && |r.value.0| == |Take(Descending(all), limit)|
      && (forall i :: 0 <= i < |r.value.0| ==>
            && r.value.0[i].entry.modRevision == Take(Descending(all), limit)[i]
            && Merged(r.value.0[i], snapshots, entries))
  }

  method IndexSnapshots(snapshots: seq<Snapshot>) returns (byRevision: map<int, Candidate>)
    ensures byRevision.Keys == StoredRevisions(snapshots)
    ensures forall x :: x in byRevision ==> byRevision[x].entry.modRevision == x && FromSnapshots(byRevision[x], snapshots)
  {
    byRevision := map[];
    for n := 0 to |snapshots|
      invariant byRevision.Keys == StoredRevisions(snapshots[..n])
      invariant forall x :: x in byRevision ==> byRevision[x].entry.modRevision == x && FromSnapshots(byRevision[x], snapshots)
    {
      var s := snapshots[n];
      var c := Candidate(s.entry, Storage, s.capturedAt);
      assert FromSnapshots(c, snapshots);
      assert StoredRevisions(snapshots[..n + 1]) == StoredRevisions(snapshots[..n]) + {s.entry.modRevision} by {
        assert forall i :: 0 <= i < n ==> snapshots[..n + 1][i] == snapshots[..n][i];
        assert snapshots[..n + 1][n] == s;
      }
      byRevision := byRevision[s.entry.modRevision := c];
    }
    assert snapshots[..|snapshots|] == snapshots;
  }

  method AddMissing(stored: map<int, Candidate>, entries: seq<Entry>) returns (byRevision: map<int, Candidate>)
    ensures byRevision.Keys == stored.Keys + EntryRevisions(entries)
    ensures forall x :: x in stored ==> byRevision[x] == stored[x]
    ensures forall x :: x in byRevision && x !in stored ==>
              byRevision[x].entry.modRevision == x && FromEntries(byRevision[x], entries)
  {
    byRevision := stored;
    for n := 0 to |entries|
      invariant byRevision.Keys == stored.Keys + EntryRevisions(entries[..n])
      invariant forall x :: x in stored ==> byRevision[x] == stored[x]
      invariant forall x :: x in byRevision && x !in stored ==>
                  byRevision[x].entry.modRevision == x && FromEntries(byRevision[x], entries)
    {
      var e := entries[n];
      assert FromEntries(Candidate(e, FromEtcd, 0), entries);
      assert EntryRevisions(entries[..n + 1]) == EntryRevisions(entries[..n]) + {e.modRevision} by {
        assert forall i :: 0 <= i < n ==> entries[..n + 1][i] == entries[..n][i];
        assert entries[..n + 1][n] == e;
      }
      if e.modRevision !in byRevision {
        byRevision := byRevision[e.modRevision := Candidate(e, FromEtcd, 0)];
      }
    }
    assert entries[..|entries|] == entries;
  }

  /** The map, the sort and the cut of rollbackCandidates, on what the two sources returned. */
  method RollbackCandidates(snapshots: seq<Snapshot>, entries: seq<Entry>, compacted: bool, limit: nat)
    returns (r: Result<(seq<Candidate>, bool), StoreError>)
    ensures MergeSpec(snapshots, entries, compacted, limit, r)
  {
    var stored := IndexSnapshots(snapshots);
    var byRevision := AddMissing(stored, entries);
    var candidates := SortCandidates(byRevision);
    ghost var sorted := candidates;
    if |candidates| == 0 && compacted {
      r := Err(Compacted);
    } else {
      var hasMore := |candidates| > limit;
      if hasMore {
        candidates := candidates[..limit];
      }
      r := Ok((candidates, hasMore));
    }
    assert byRevision.Keys == StoredRevisions(snapshots) + EntryRevisions(entries);
    forall x | x in byRevision ensures byRevision[x].entry.modRevision == x && Merged(byRevision[x], snapshots, entries) {
    }
    MergeFits(snapshots, entries, compacted, limit, byRevision, sorted, r);
  }

  ghost predicate IsSorted(byRevision: map<int, Candidate>, candidates: seq<Candidate>) {
    var l := Descending(byRevision.Keys);
    && |candidates| == |l|
    && forall i :: 0 <= i < |l| ==> l[i] in byRevision && candidates[i] == byRevision[l[i]]
  }

  lemma MergeFits(snapshots: seq<Snapshot>, entries: seq<Entry>, compacted: bool, limit: nat,
                  byRevision: map<int, Candidate>, sorted: seq<Candidate>, r: Result<(seq<Candidate>, bool), StoreError>)
    requires byRevision.Keys == StoredRevisions(snapshots) + EntryRevisions(entries)
    requires forall x :: x in byRevision ==> byRevision[x].entry.modRevision == x && Merged(byRevision[x], snapshots, entries)
    requires IsSorted(byRevision, sorted)
    requires r == if sorted == [] && compacted then Err(Compacted) else Ok((Take(sorted, limit), |sorted| > limit))
    ensures MergeSpec(snapshots, entries, compacted, limit, r)
  {
  }

  method SortCandidates(byRevision: map<int, Candidate>) returns (candidates: seq<Candidate>)
    ensures IsSorted(byRevision, candidates)
  {
    candidates := [];
    var left := byRevision.Keys;
    ghost var order: seq<int> := [];
    while left != {}
      invariant left <= byRevision.Keys
      invariant |order| == |candidates| && IsDescending(order)
      invariant forall x :: x in order <==> x in byRevision.Keys - left
      invariant forall x, y :: x in order && y in left ==> x > y
      invariant forall i :: 0 <= i < |order| ==> order[i] in byRevision && candidates[i] == byRevision[order[i]]
      decreases left
    {
      var m := Largest(left);
      assert forall i :: 0 <= i < |order| ==> order[i] in order;
      candidates := candidates + [byRevision[m]];
      order := order + [m];
      left := left - {m};
    }
    assert left == {};
    assert SameElements(order, byRevision.Keys);
    DescendingUnique(order, byRevision.Keys);
  }
}
