/** Sorting a key's snapshots and cutting them to a retention, against the pruned table
    (newestSnapshots in internal/store/history.go). */
module HistoryCut {
  import opened Store
  import opened Ordering
  import opened History
  import opened HistoryFile
  import opened HistoryLog
  import Text

  // ----- One key's snapshots, the newest first -----

  ghost predicate NewestFirst(l: seq<Snapshot>) {
    forall i, j :: 0 <= i < j < |l| ==> l[i].entry.modRevision > l[j].entry.modRevision
  }

  function Placed(m: seq<Snapshot>, s: Snapshot): seq<Snapshot> {
    if m == [] || m[0].entry.modRevision <= s.entry.modRevision then [s] + m else [m[0]] + Placed(m[1..], s)
  }

  /** The list sorted, the newest first. */
  function Newest(l: seq<Snapshot>): seq<Snapshot>
    decreases |l|
  {
    if l == [] then [] else Placed(Newest(l[..|l| - 1]), l[|l| - 1])
  }

  lemma {:induction false} PlacedSorted(m: seq<Snapshot>, s: Snapshot)
    requires NewestFirst(m) && forall x :: x in m ==> x.entry.modRevision != s.entry.modRevision
    ensures NewestFirst(Placed(m, s)) && forall x :: x in Placed(m, s) <==> x in m || x == s
  {
    if m != [] && m[0].entry.modRevision > s.entry.modRevision {
      PlacedSorted(m[1..], s);
      var rest := Placed(m[1..], s);
      forall i | 0 <= i < |rest| ensures m[0].entry.modRevision > rest[i].entry.modRevision {
        assert rest[i] in rest;
        assert rest[i] == s || rest[i] in m[1..];
      }
      assert m == [m[0]] + m[1..];
    }
  }

  lemma DistinctLast(l: seq<Snapshot>)
    requires Distinct(l) && l != []
    ensures forall x :: x in l[..|l| - 1] ==> x.entry.modRevision != l[|l| - 1].entry.modRevision
  {
  }

  lemma {:induction false} NewestSorts(l: seq<Snapshot>)
    requires Distinct(l)
    ensures NewestFirst(Newest(l)) && forall x :: x in Newest(l) <==> x in l
    decreases |l|
  {
    if l != [] {
      var n := |l| - 1;
      NewestSorts(l[..n]);
      DistinctLast(l);
      PlacedSorted(Newest(l[..n]), l[n]);
      assert l == l[..n] + [l[n]];
    }
  }

  /** newestSnapshots, where the list is longer than the retention. */
  function CutList(l: seq<Snapshot>, keep: nat): seq<Snapshot> {
    if |l| <= keep then l else Take(Newest(l), keep)
  }

  function CutLists(entries: map<string, seq<Snapshot>>, keep: nat): map<string, seq<Snapshot>> {
    map k | k in entries :: CutList(entries[k], keep)
  }

  lemma SortedRevisions(l: seq<Snapshot>, m: seq<Snapshot>, n: nat, s: Snapshot)
    requires NewestFirst(m) && (forall x :: x in m <==> x in l) && s in l && Distinct(l)
    ensures s in Take(m, n) <==> s.entry.modRevision in Latest(StoredRevisions(l), n)
  {
    var revs := seq(|m|, i requires 0 <= i < |m| => m[i].entry.modRevision);
    SortedListing(l, m, revs);
    var cut := Take(revs, n);
    assert s in m;
    var i :| 0 <= i < |m| && m[i] == s;
    if i < n {
      assert Take(m, n)[i] == s && cut[i] == s.entry.modRevision;
    } else {
      forall j | 0 <= j < |cut| ensures cut[j] != s.entry.modRevision {
        assert revs[j] > revs[i];
      }
    }
  }

  lemma SortedListing(l: seq<Snapshot>, m: seq<Snapshot>, revs: seq<int>)
    requires NewestFirst(m) && (forall x :: x in m <==> x in l)
    requires |revs| == |m| && forall i :: 0 <= i < |m| ==> revs[i] == m[i].entry.modRevision
    ensures revs == Descending(StoredRevisions(l))
  {
    forall x | x in revs ensures x in StoredRevisions(l) {
      var i :| 0 <= i < |revs| && revs[i] == x;
      assert m[i] in m;
      var j :| 0 <= j < |l| && l[j] == m[i];
    }
    forall x | x in StoredRevisions(l) ensures x in revs {
      var j :| 0 <= j < |l| && l[j].entry.modRevision == x;
      assert l[j] in m;
      var i :| 0 <= i < |m| && m[i] == l[j];
      assert revs[i] == x;
    }
    DescendingUnique(revs, StoredRevisions(l));
  }

  lemma KeyRevisions(ix: Index, t: Table, cluster: string, key: Bytes)
    requires Represents(ix, t)
    ensures StoredRevisions(Stored(ix.entries, EntryKey(cluster, key))) == Revisions(t, cluster, key)
  {
    var k := EntryKey(cluster, key);
    var l := Stored(ix.entries, k);
    assert l != [] ==> InTable(l, k, t);
    forall r | r in StoredRevisions(l) ensures r in Revisions(t, cluster, key) {
      var i :| 0 <= i < |l| && l[i].entry.modRevision == r;
      EntryKeyInjective(l[i].cluster, l[i].entry.key, cluster, key);
    }
    forall r | r in Revisions(t, cluster, key) ensures r in StoredRevisions(l) {
      var s := t[SnapId(cluster, key, r)];
      assert s in l;
      var i :| 0 <= i < |l| && l[i] == s;
    }
  }

  lemma ListSize(l: seq<Snapshot>)
    requires Distinct(l)
    ensures |StoredRevisions(l)| == |l|
    decreases |l|
  {
    if l != [] {
      var n := |l| - 1;
      ListSize(l[..n]);
      assert StoredRevisions(l) == StoredRevisions(l[..n]) + {l[n].entry.modRevision} by {
        assert forall i :: 0 <= i < n ==> l[..n][i] == l[i];
      }
      assert l[n].entry.modRevision !in StoredRevisions(l[..n]);
    }
  }

  /** Cutting one key's sorted list represents the table pruned at that key. */
  lemma CutKey(entries: map<string, seq<Snapshot>>, t: Table, cluster: string, key: Bytes, keep: nat, m: seq<Snapshot>)
    requires Represents(Index(entries, SeenKeys(t)), t) && keep >= 1 && EntryKey(cluster, key) in entries
    requires NewestFirst(m) && forall x :: x in m <==> x in entries[EntryKey(cluster, key)]
    ensures Represents(Index(entries[EntryKey(cluster, key) := Take(m, keep)], SeenKeys(PruneKey(t, cluster, key, keep))),
                       PruneKey(t, cluster, key, keep))
  {
    var k := EntryKey(cluster, key);
    var u := PruneKey(t, cluster, key, keep);
    var updated := entries[k := Take(m, keep)];
    KeyRevisions(Index(entries, SeenKeys(t)), t, cluster, key);
    forall o | o in entries ensures KeepsWhere(entries[o], updated[o], u) {
      assert InTable(entries[o], o, t);
      if o == k { CutListKeeps(entries[o], t, cluster, key, keep, m); } else { OtherListKeeps(entries[o], o, t, cluster, key, keep); }
    }
    FilterRepresents(entries, t, updated, u);
  }

  lemma CutListKeeps(l: seq<Snapshot>, t: Table, cluster: string, key: Bytes, keep: nat, m: seq<Snapshot>)
    requires InTable(l, EntryKey(cluster, key), t) && keep >= 1 && StoredRevisions(l) == Revisions(t, cluster, key)
    requires NewestFirst(m) && forall x :: x in m <==> x in l
    ensures KeepsWhere(l, Take(m, keep), PruneKey(t, cluster, key, keep))
  {
    var kept, u := Take(m, keep), PruneKey(t, cluster, key, keep);
    assert l[0] in m;
    forall s | s in l ensures s in kept <==> IdOf(s) in u {
      var i :| 0 <= i < |l| && l[i] == s;
      EntryKeyInjective(s.cluster, s.entry.key, cluster, key);
      SortedRevisions(l, m, keep, s);
    }
    forall s | s in kept ensures s in l {
      var i :| 0 <= i < |kept| && kept[i] == s;
      assert m[i] in m;
    }
  }

  lemma OtherListKeeps(l: seq<Snapshot>, o: string, t: Table, cluster: string, key: Bytes, keep: nat)
    requires InTable(l, o, t) && o != EntryKey(cluster, key)
    ensures KeepsWhere(l, l, PruneKey(t, cluster, key, keep))
  {
    forall s | s in l ensures IdOf(s) in PruneKey(t, cluster, key, keep) {
      var i :| 0 <= i < |l| && l[i] == s;
    }
  }

  lemma PruneAtKey(t: Table, cluster: string, key: Bytes, keep: nat, r: int)
    ensures SnapId(cluster, key, r) in PruneKey(t, cluster, key, keep) <==> SnapId(cluster, key, r) in Prune(t, keep)
  {
  }

  lemma KeyListKeeps(l: seq<Snapshot>, kept: seq<Snapshot>, t: Table, cluster: string, key: Bytes, keep: nat)
    requires InTable(l, EntryKey(cluster, key), t) && KeepsWhere(l, kept, PruneKey(t, cluster, key, keep))
    ensures KeepsWhere(l, kept, Prune(t, keep))
  {
    forall s | s in l ensures IdOf(s) in PruneKey(t, cluster, key, keep) <==> IdOf(s) in Prune(t, keep) {
      var i :| 0 <= i < |l| && l[i] == s;
      EntryKeyInjective(s.cluster, s.entry.key, cluster, key);
      PruneAtKey(t, cluster, key, keep, s.entry.modRevision);
    }
  }

  lemma CutListPrunes(entries: map<string, seq<Snapshot>>, t: Table, o: string, keep: nat)
    requires Represents(Index(entries, SeenKeys(t)), t) && keep >= 1 && o in entries
    ensures KeepsWhere(entries[o], CutList(entries[o], keep), Prune(t, keep))
  {
    var l := entries[o];
    assert InTable(l, o, t);
    var cluster, key := l[0].cluster, l[0].entry.key;
    KeyRevisions(Index(entries, SeenKeys(t)), t, cluster, key);
    if |l| <= keep {
      ListSize(l);
      SmallKeyUntouched(t, cluster, key, keep);
    } else {
      NewestSorts(l);
      CutListKeeps(l, t, cluster, key, keep, Newest(l));
    }
    KeyListKeeps(l, CutList(l, keep), t, cluster, key, keep);
  }

  /** Cutting every list represents the pruned table. */
  lemma CutAll(entries: map<string, seq<Snapshot>>, t: Table, keep: nat)
    requires Represents(Index(entries, SeenKeys(t)), t) && keep >= 1
    ensures Represents(Index(CutLists(entries, keep), SeenKeys(Prune(t, keep))), Prune(t, keep))
  {
    forall o | o in entries ensures KeepsWhere(entries[o], CutLists(entries, keep)[o], Prune(t, keep)) {
      CutListPrunes(entries, t, o, keep);
    }
    FilterRepresents(entries, t, CutLists(entries, keep), Prune(t, keep));
  }

  lemma NothingToPrune(ix: Index, t: Table, cluster: string, key: Bytes, keep: nat)
    requires Represents(ix, t) && (keep == 0 || Text.Blank(cluster) || key == [])
    ensures History.PruneKey(t, cluster, key, keep) == t
  {
    if keep > 0 {
      forall id | id in t ensures !(id.cluster == cluster && id.key == key) {
        assert ValidSnapshot(t[id]);
      }
    }
  }
}
