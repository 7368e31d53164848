/** What the rollback pages list and which listed versions resolve. */
module RollbackPages {
  import opened Store
  import opened Ordering
  import opened Mvcc
  import opened History
  import opened EtcdWalk
  import opened Rollback
  import Archive
  import ArchiveSafety

  /** Every stored snapshot of the key is one of its versions (kept by every run of the archive protocol). */
  ghost predicate FaithfulKey(t: Table, db: Etcd, cluster: string, key: Bytes) {
    && Consistent(t)
    && forall r :: r in Revisions(t, cluster, key) ==>
         t[SnapId(cluster, key, r)].entry.modRevision == r && IsVersion(db, key, t[SnapId(cluster, key, r)].entry)
  }

  lemma ProtocolIsFaithful(states: seq<Archive.State>, actions: seq<Archive.Action>, i: nat, cluster: string, key: Bytes)
    requires Archive.Run(states, actions) && i <= |actions| && cluster in states[i].etcds
    ensures FaithfulKey(states[i].table, states[i].etcds[cluster], cluster, key)
  {
    ArchiveSafety.RunKeeps(states, actions, i);
  }

  function Walked(db: Etcd, key: Bytes, before: int): set<int>
    requires before <= |db.log|
  {
    EntryRevisions(Chain(db, key, before - 1))
  }

  /** Everything below `before` that storage or the uncut walk offers. */
  ghost function Offered(t: Table, db: Etcd, cluster: string, key: Bytes, before: int): set<int>
    requires before <= |db.log|
  {
    Below(Revisions(t, cluster, key), before) + Walked(db, key, before)
  }

  ghost predicate Known(t: Table, db: Etcd, cluster: string, key: Bytes, r: int) {
    SnapId(cluster, key, r) in t || (1 <= r <= |db.log| && EntryAt(db.log, key, r).Some?)
  }

  /** The stored copy if there is one, else the version etcd holds. */
  ghost function CandidateAt(t: Table, db: Etcd, cluster: string, key: Bytes, r: int): Candidate
    requires Known(t, db, cluster, key, r)
  {
    var id := SnapId(cluster, key, r);
    if id in t then Candidate(t[id].entry, Storage, t[id].capturedAt)
    else Candidate(EntryAt(db.log, key, r).value, FromEtcd, 0)
  }

  lemma WalkedIsVersion(db: Etcd, key: Bytes, before: int, r: int)
    requires before <= |db.log| && r in Walked(db, key, before)
    ensures 1 <= r < before && EntryAt(db.log, key, r).Some? && EntryAt(db.log, key, r).value.modRevision == r
  {
    var c := Chain(db, key, before - 1);
    var i :| 0 <= i < |c| && c[i].modRevision == r;
    ChainVersion(db, key, before - 1, i);
  }

  lemma OfferedIsKnown(t: Table, db: Etcd, cluster: string, key: Bytes, before: int, r: int)
    requires before <= |db.log| && r in Offered(t, db, cluster, key, before)
    ensures r < before && Known(t, db, cluster, key, r)
  {
    if r in Walked(db, key, before) { WalkedIsVersion(db, key, before, r); }
  }

  // ----- One page -----

  ghost predicate IsPage(t: Table, db: Etcd, cluster: string, key: Bytes, before: int, limit: nat,
                         r: Result<(seq<Candidate>, bool), StoreError>)
    requires before <= |db.log|
  {
    var all := Offered(t, db, cluster, key, before);
    var revs := Take(Descending(all), limit);
    if all == {} && 1 <= before - 1 < db.compacted then r == Err(Compacted)
    else
      && r.Ok?
      && r.value.1 == (|all| > limit)
      && |r.value.0| == |revs|
      && forall i :: 0 <= i < |revs| ==>
           Known(t, db, cluster, key, revs[i]) && r.value.0[i] == CandidateAt(t, db, cluster, key, revs[i])
  }

  ghost predicate SourcesRead(t: Table, db: Etcd, cluster: string, key: Bytes, before: int, limit: nat,
                              snapshots: seq<Snapshot>, entries: seq<Entry>, compacted: bool)
    requires before <= |db.log| && Consistent(t)
  {
    && snapshots == ListBefore(t, cluster, key, before, limit + 1)
    && Walk(Reads(db, key), before - 1, limit + 1) == Ok((entries, compacted))
  }

  lemma SnapshotRevisions(t: Table, cluster: string, key: Bytes, before: int, n: nat)
    requires Consistent(t)
    ensures StoredRevisions(ListBefore(t, cluster, key, before, n)) == Latest(Below(Revisions(t, cluster, key), before), n)
    ensures forall i :: 0 <= i < |ListBefore(t, cluster, key, before, n)| ==>
              var s := ListBefore(t, cluster, key, before, n)[i];
              IdOf(s) == SnapId(cluster, key, s.entry.modRevision) && IdOf(s) in t && t[IdOf(s)] == s
  {
    var l := ListBefore(t, cluster, key, before, n);
    var revs := Take(Descending(Below(Revisions(t, cluster, key), before)), n);
    forall i | 0 <= i < |revs| ensures l[i].entry.modRevision == revs[i] && IdOf(l[i]) == SnapId(cluster, key, revs[i]) {
      assert revs[i] in Below(Revisions(t, cluster, key), before);
    }
    assert forall r :: r in StoredRevisions(l) <==> r in revs;
  }

  lemma ChainRevisions(db: Etcd, key: Bytes, before: int, n: nat)
    requires before <= |db.log|
    ensures EntryRevisions(Take(Chain(db, key, before - 1), n)) == Latest(Walked(db, key, before), n)
  {
    var c := Chain(db, key, before - 1);
    forall i, j | 0 <= i < j < |c| ensures c[i].modRevision > c[j].modRevision {
      ChainDescends(db, key, before - 1, i, j);
    }
    PrefixIsLatest(c, n);
  }

  function ModRevisions(c: seq<Entry>): (revs: seq<int>)
    ensures |revs| == |c| && forall i :: 0 <= i < |c| ==> revs[i] == c[i].modRevision
  {
    seq(|c|, i requires 0 <= i < |c| => c[i].modRevision)
  }

  lemma RevisionMembers(c: seq<Entry>)
    ensures SameElements(ModRevisions(c), EntryRevisions(c))
  {
    forall x | x in ModRevisions(c) ensures x in EntryRevisions(c) {
      var i :| 0 <= i < |c| && ModRevisions(c)[i] == x;
      assert c[i].modRevision == x;
    }
    forall x | x in EntryRevisions(c) ensures x in ModRevisions(c) {
      var i :| 0 <= i < |c| && c[i].modRevision == x;
      assert ModRevisions(c)[i] == x;
    }
  }

  /** The beginning of a descending list holds the newest revisions. */
  lemma PrefixIsLatest(c: seq<Entry>, n: nat)
    requires forall i, j :: 0 <= i < j < |c| ==> c[i].modRevision > c[j].modRevision
    ensures EntryRevisions(Take(c, n)) == Latest(EntryRevisions(c), n)
  {
    RevisionMembers(c);
    DescendingUnique(ModRevisions(c), EntryRevisions(c));
    RevisionMembers(Take(c, n));
    assert ModRevisions(Take(c, n)) == Take(ModRevisions(c), n);
  }

  lemma StoredCandidate(t: Table, db: Etcd, cluster: string, key: Bytes, before: int, n: nat, c: Candidate)
    requires Consistent(t) && FromSnapshots(c, ListBefore(t, cluster, key, before, n))
    ensures Known(t, db, cluster, key, c.entry.modRevision)
    ensures c == CandidateAt(t, db, cluster, key, c.entry.modRevision)
  {
    var l := ListBefore(t, cluster, key, before, n);
    SnapshotRevisions(t, cluster, key, before, n);
    var i :| 0 <= i < |l| && c == Candidate(l[i].entry, Storage, l[i].capturedAt);
    assert IdOf(l[i]) == SnapId(cluster, key, l[i].entry.modRevision) && IdOf(l[i]) in t;
  }

  lemma WalkedCandidate(t: Table, db: Etcd, cluster: string, key: Bytes, before: int, n: nat, c: Candidate)
    requires before <= |db.log| && FromEntries(c, Take(Chain(db, key, before - 1), n))
    requires SnapId(cluster, key, c.entry.modRevision) !in t
    ensures Known(t, db, cluster, key, c.entry.modRevision)
    ensures c == CandidateAt(t, db, cluster, key, c.entry.modRevision)
  {
    var short := Take(Chain(db, key, before - 1), n);
    var i :| 0 <= i < |short| && c == Candidate(short[i], FromEtcd, 0);
    ChainVersion(db, key, before - 1, i);
  }

  /** A merged candidate among the newest of the union is the one the union names. */
  lemma MergedIsCandidate(t: Table, db: Etcd, cluster: string, key: Bytes, before: int, n: nat, c: Candidate)
    requires before <= |db.log| && Consistent(t)
    requires Merged(c, ListBefore(t, cluster, key, before, n), Take(Chain(db, key, before - 1), n))
    requires c.entry.modRevision in Latest(Offered(t, db, cluster, key, before), n)
    ensures Known(t, db, cluster, key, c.entry.modRevision)
    ensures c == CandidateAt(t, db, cluster, key, c.entry.modRevision)
  {
    var r := c.entry.modRevision;
    var stored := Below(Revisions(t, cluster, key), before);
    SnapshotRevisions(t, cluster, key, before, n);
    if r in stored {
      LatestOfSubset(stored, Offered(t, db, cluster, key, before), n, r);
      StoredCandidate(t, db, cluster, key, before, n, c);
    } else {
      OfferedIsKnown(t, db, cluster, key, before, r);
      WalkedCandidate(t, db, cluster, key, before, n, c);
    }
  }

  lemma CutSizes(cut: set<int>, all: set<int>, limit: nat)
    requires cut <= all && Take(Descending(cut), limit + 1) == Take(Descending(all), limit + 1)
    ensures Take(Descending(cut), limit) == Take(Descending(all), limit)
    ensures |cut| > limit <==> |all| > limit
    ensures cut == {} <==> all == {}
  {
    var a, b := Descending(cut), Descending(all);
    assert Take(Take(a, limit + 1), limit) == Take(a, limit);
    assert Take(Take(b, limit + 1), limit) == Take(b, limit);
    if all != {} {
      var x := AnElement(all);
      assert |b| > 0;
    }
  }

  /** The sets the two cut sources contribute agree with the union on everything the page shows. */
  lemma CutAgrees(t: Table, db: Etcd, cluster: string, key: Bytes, before: int, limit: nat)
    requires before <= |db.log| && Consistent(t)
    ensures var cut := StoredRevisions(ListBefore(t, cluster, key, before, limit + 1))
                       + EntryRevisions(Take(Chain(db, key, before - 1), limit + 1));
            var all := Offered(t, db, cluster, key, before);
            && Take(Descending(cut), limit) == Take(Descending(all), limit)
            && (|cut| > limit <==> |all| > limit)
            && (cut == {} <==> all == {})
  {
    SnapshotRevisions(t, cluster, key, before, limit + 1);
    ChainRevisions(db, key, before, limit + 1);
    LatestMerge(Below(Revisions(t, cluster, key), before), Walked(db, key, before), limit + 1);
    CutSizes(StoredRevisions(ListBefore(t, cluster, key, before, limit + 1))
             + EntryRevisions(Take(Chain(db, key, before - 1), limit + 1)),
             Offered(t, db, cluster, key, before), limit);
  }

  /** Although each source is cut at `limit + 1` first, a page is the newest `limit` of the union,
      newest first, stored copies preferred, and it says "more" exactly when the union is larger. */
  lemma PageIsNewestOfUnion(t: Table, db: Etcd, cluster: string, key: Bytes, before: int, limit: nat,
                            snapshots: seq<Snapshot>, entries: seq<Entry>, compacted: bool,
                            r: Result<(seq<Candidate>, bool), StoreError>)
    requires before <= |db.log| && Consistent(t)
    requires SourcesRead(t, db, cluster, key, before, limit, snapshots, entries, compacted)
    requires MergeSpec(snapshots, entries, compacted, limit, r)
    ensures IsPage(t, db, cluster, key, before, limit, r)
  {
    WalkIsChain(db, key, before - 1, limit + 1);
    MergedIsPage(t, db, cluster, key, before, limit, r);
  }

  lemma MergedIsPage(t: Table, db: Etcd, cluster: string, key: Bytes, before: int, limit: nat,
                     r: Result<(seq<Candidate>, bool), StoreError>)
    requires before <= |db.log| && Consistent(t)
    requires MergeSpec(ListBefore(t, cluster, key, before, limit + 1), Take(Chain(db, key, before - 1), limit + 1),
                       CutByCompaction(db, key, before - 1, limit + 1), limit, r)
    ensures IsPage(t, db, cluster, key, before, limit, r)
  {
    CutAgrees(t, db, cluster, key, before, limit);
    EmptyWalk(db, key, before, limit);
    if r.Ok? {
      PageCandidates(t, db, cluster, key, before, limit, r.value.0);
    }
  }

  lemma PageCandidates(t: Table, db: Etcd, cluster: string, key: Bytes, before: int, limit: nat, page: seq<Candidate>)
    requires before <= |db.log| && Consistent(t)
    requires var revs := Take(Descending(Offered(t, db, cluster, key, before)), limit);
             && |page| == |revs|
             && forall i :: 0 <= i < |page| ==>
                  && page[i].entry.modRevision == revs[i]
                  && Merged(page[i], ListBefore(t, cluster, key, before, limit + 1), Take(Chain(db, key, before - 1), limit + 1))
    ensures var revs := Take(Descending(Offered(t, db, cluster, key, before)), limit);
            forall i :: 0 <= i < |revs| ==>
              Known(t, db, cluster, key, revs[i]) && page[i] == CandidateAt(t, db, cluster, key, revs[i])
  {
    var l := Descending(Offered(t, db, cluster, key, before));
    var revs := Take(l, limit);
    forall i | 0 <= i < |revs|
      ensures Known(t, db, cluster, key, revs[i]) && page[i] == CandidateAt(t, db, cluster, key, revs[i])
    {
      InLongerPrefix(l, limit, i);
      MergedIsCandidate(t, db, cluster, key, before, limit + 1, page[i]);
    }
  }

  lemma InLongerPrefix(l: seq<int>, limit: nat, i: nat)
    requires i < |Take(l, limit)|
    ensures Take(l, limit)[i] in Take(l, limit + 1)
  {
    assert Take(l, limit + 1)[i] == Take(l, limit)[i];
  }

  lemma EmptyWalk(db: Etcd, key: Bytes, before: int, limit: nat)
    requires before <= |db.log|
    ensures Walked(db, key, before) == {} ==>
              (CutByCompaction(db, key, before - 1, limit + 1) <==> 1 <= before - 1 < db.compacted)
  {
    var c := Chain(db, key, before - 1);
    if c != [] {
      assert c[0].modRevision in Walked(db, key, before);
    }
  }
}
