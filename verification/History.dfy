/** The value history as a table: what both storage backends implement.

    A snapshot is identified by cluster, key bytes and modification revision; saving an identifier
    twice keeps the first copy, and pruning keeps the newest revisions of each key. */
module History {
  import opened Store
  import opened Ordering

  datatype SnapId = SnapId(cluster: string, key: Bytes, revision: int)

  type Table = map<SnapId, Snapshot>

  function IdOf(s: Snapshot): SnapId {
    SnapId(s.cluster, s.entry.key, s.entry.modRevision)
  }

  ghost predicate Consistent(t: Table) {
    forall id :: id in t ==> IdOf(t[id]) == id
  }

  function Insert(t: Table, s: Snapshot): Table {
    if IdOf(s) in t then t else t[IdOf(s) := s]
  }

  function Revisions(t: Table, cluster: string, key: Bytes): (revs: set<int>)
    ensures forall r :: r in revs <==> SnapId(cluster, key, r) in t
  {
    set id | id in t && id.cluster == cluster && id.key == key :: id.revision
  }

  /** The revisions of a list of snapshots. */
  function StoredRevisions(snapshots: seq<Snapshot>): set<int> {
    set i | 0 <= i < |snapshots| :: snapshots[i].entry.modRevision
  }

  /** Retention for one key; 0 keeps everything. */
  ghost function PruneKey(t: Table, cluster: string, key: Bytes, keep: nat): Table {
    if keep == 0 then t else
      map id | id in t && (id.cluster == cluster && id.key == key ==>
                             id.revision in Latest(Revisions(t, cluster, key), keep)) :: t[id]
  }

  /** Retention for every key. */
  ghost function Prune(t: Table, keep: nat): Table {
    if keep == 0 then t else
      map id | id in t && id.revision in Latest(Revisions(t, id.cluster, id.key), keep) :: t[id]
  }

  /** The newest `limit` stored snapshots of a key below a revision, newest first. */
  ghost function ListBefore(t: Table, cluster: string, key: Bytes, bound: int, limit: nat): (l: seq<Snapshot>)
    requires Consistent(t)
  {
    var revs := Take(Descending(Below(Revisions(t, cluster, key), bound)), limit);
    seq(|revs|, i requires 0 <= i < |revs| =>
      assert revs[i] in Revisions(t, cluster, key); t[SnapId(cluster, key, revs[i])])
  }

  // ----- Pruning by cutoff, as a database does it -----

  ghost function CutoffOf(revs: set<int>, keep: nat): (cut: int)
    requires 1 <= keep <= |revs|
    ensures cut in revs
  {
    var l := Descending(revs);
    assert l[keep - 1] in l;
    l[keep - 1]
  }

  /** `cut` is the revision at offset `keep - 1` of a key's stored revisions, newest first. */
  ghost predicate IsCutoff(t: Table, cluster: string, key: Bytes, keep: nat, cut: int) {
    var revs := Revisions(t, cluster, key);
    1 <= keep <= |revs| && cut == CutoffOf(revs, keep)
  }

  function DeleteBelow(t: Table, cluster: string, key: Bytes, cut: int): Table {
    map id | id in t && !(id.cluster == cluster && id.key == key && id.revision < cut) :: t[id]
  }

  lemma TopByCutoff(revs: set<int>, keep: nat, r: int)
    requires 1 <= keep <= |revs| && r in revs
    ensures r in Latest(revs, keep) <==> r >= CutoffOf(revs, keep)
  {
    var p := Take(Descending(revs), keep);
    assert p[keep - 1] in p;
    if r in p {
      var j :| 0 <= j < |p| && p[j] == r;
      assert j == keep - 1 || p[j] > p[keep - 1];
    } else {
      LatestPrecede(revs, keep, r, p[keep - 1]);
    }
  }

  /** Selecting a cutoff and deleting below it leaves what sorting and truncating leaves. */
  lemma CutoffPrunes(t: Table, cluster: string, key: Bytes, keep: nat, cut: int)
    requires IsCutoff(t, cluster, key, keep, cut)
    ensures DeleteBelow(t, cluster, key, cut) == PruneKey(t, cluster, key, keep)
  {
    var revs := Revisions(t, cluster, key);
    forall id | id in t && id.cluster == cluster && id.key == key
      ensures id.revision in Latest(revs, keep) <==> id.revision >= cut
    {
      assert id == SnapId(cluster, key, id.revision);
      TopByCutoff(revs, keep, id.revision);
    }
  }

  lemma SmallKeyUntouched(t: Table, cluster: string, key: Bytes, keep: nat)
    requires |Revisions(t, cluster, key)| <= keep
    ensures PruneKey(t, cluster, key, keep) == t
  {
    var revs := Revisions(t, cluster, key);
    assert Latest(revs, keep) == revs;
    forall id | id in t && id.cluster == cluster && id.key == key ensures id.revision in revs {
      assert id == SnapId(cluster, key, id.revision);
    }
  }

  /** Pruning one key leaves every other key alone. */
  lemma PruneKeyFrame(t: Table, cluster: string, key: Bytes, keep: nat, c: string, k: Bytes)
    requires c != cluster || k != key
    ensures Revisions(PruneKey(t, cluster, key, keep), c, k) == Revisions(t, c, k)
  {
  }

  lemma PruneKeyRevisions(t: Table, cluster: string, key: Bytes, keep: nat)
    requires keep > 0
    ensures Revisions(PruneKey(t, cluster, key, keep), cluster, key) == Latest(Revisions(t, cluster, key), keep)
  {
  }
}
