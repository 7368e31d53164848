/** The database history (internal/store/history_database.go) over an abstract table of rows, proved against
    the same specification as the file backend: pruning by cutoff leaves what sorting and truncating leaves. */
module Database {
  import opened Store
  import opened Ordering
  import opened History
  import opened HistoryFile

  datatype Row = Row(keyHash: Bytes, snapshot: Snapshot)

  ghost predicate CollisionFree(hash: Bytes -> Bytes) {
    forall a, b :: hash(a) == hash(b) ==> a == b
  }

  /** The rows are exactly the snapshots of the table, each filed under the hash of its key. */
  ghost predicate RowsMean(rows: set<Row>, hash: Bytes -> Bytes, t: Table) {
    && Consistent(t)
    && (forall row :: row in rows ==>
          row.keyHash == hash(row.snapshot.entry.key) && IdOf(row.snapshot) in t && t[IdOf(row.snapshot)] == row.snapshot)
    && (forall id :: id in t ==> Row(hash(id.key), t[id]) in rows)
  }

  predicate Matches(row: Row, hash: Bytes -> Bytes, cluster: string, key: Bytes) {
    row.snapshot.cluster == cluster && row.keyHash == hash(key) && row.snapshot.entry.key == key
  }

  /** The unique constraint on cluster, key hash and revision. */
  predicate Taken(rows: set<Row>, hash: Bytes -> Bytes, s: Snapshot) {
    exists row :: row in rows && row.snapshot.cluster == s.cluster && row.keyHash == hash(s.entry.key)
                  && row.snapshot.entry.modRevision == s.entry.modRevision
  }

  function SelectRevisions(rows: set<Row>, hash: Bytes -> Bytes, cluster: string, key: Bytes): set<int> {
    set row | row in rows && Matches(row, hash, cluster, key) :: row.snapshot.entry.modRevision
  }

  lemma SelectedRevisions(rows: set<Row>, hash: Bytes -> Bytes, t: Table, cluster: string, key: Bytes)
    requires RowsMean(rows, hash, t)
    ensures SelectRevisions(rows, hash, cluster, key) == Revisions(t, cluster, key)
  {
    forall r | r in Revisions(t, cluster, key) ensures r in SelectRevisions(rows, hash, cluster, key) {
      var id := SnapId(cluster, key, r);
      assert Matches(Row(hash(id.key), t[id]), hash, cluster, key);
    }
  }

  lemma TakenIffStored(rows: set<Row>, hash: Bytes -> Bytes, t: Table, s: Snapshot)
    requires RowsMean(rows, hash, t) && CollisionFree(hash)
    ensures Taken(rows, hash, s) <==> IdOf(s) in t
  {
    if IdOf(s) in t {
      assert Row(hash(s.entry.key), t[IdOf(s)]) in rows;
    }
  }

  /** ORDER BY mod_revision DESC OFFSET n LIMIT 1. */
  method AtOffset(revs: set<int>, n: nat) returns (r: Option<int>)
    ensures n >= |revs| ==> r.None?
    ensures n < |revs| ==> r == Some(Descending(revs)[n])
  {
    var left, k := revs, 0;
    ghost var taken: seq<int> := [];
    while left != {} && k < n
      invariant |taken| == k <= n && left <= revs && |left| + k == |revs|
      invariant IsDescending(taken) && (forall x :: x in taken <==> x in revs - left)
      invariant forall x, y :: x in taken && y in left ==> x > y
    {
      var m := Largest(left);
      assert forall i :: 0 <= i < |taken| ==> taken[i] in taken;
      taken := taken + [m];
      left, k := left - {m}, k + 1;
    }
    if left == {} { return None; }
    var m := Largest(left);
    AtOffsetIs(revs, left, taken, m);
    return Some(m);
  }

  lemma AtOffsetIs(revs: set<int>, left: set<int>, taken: seq<int>, m: int)
    requires left <= revs && m in left && (forall x :: x in left && x != m ==> m > x)
    requires IsDescending(taken) && (forall x :: x in taken <==> x in revs - left)
    requires forall x, y :: x in taken && y in left ==> x > y
    ensures |taken| < |revs| && Descending(revs)[|taken|] == m
  {
    var rest := Descending(left - {m});
    var l := taken + [m] + rest;
    forall i, j | 0 <= i < j < |l| ensures l[i] > l[j] {
      if i < |taken| { assert taken[i] in taken; }
      if j > |taken| { assert rest[j - |taken| - 1] in rest; }
      if i < |taken| && j < |taken| { assert taken[i] > taken[j]; }
      if i > |taken| { assert rest[i - |taken| - 1] > rest[j - |taken| - 1]; }
    }
    assert forall x :: x in l <==> x in revs by {
      assert forall x :: x in l <==> x in taken || x == m || x in rest;
    }
    DescendingUnique(l, revs);
  }

  /** ORDER BY mod_revision DESC LIMIT n. */
  method FirstDescending(revs: set<int>, n: nat) returns (l: seq<int>)
    ensures l == Take(Descending(revs), n)
  {
    l := [];
    var left := revs;
    while left != {} && |l| < n
      invariant left <= revs && |l| <= n && IsDescending(l) && (forall x :: x in l <==> x in revs - left)
      invariant forall x, y :: x in l && y in left ==> x > y
      decreases left
    {
      var m := Largest(left);
      assert forall i :: 0 <= i < |l| ==> l[i] in l;
      l := l + [m];
      left := left - {m};
    }
    DescendingStart(revs, left, l);
  }

  lemma DescendingStart(revs: set<int>, left: set<int>, l: seq<int>)
    requires left <= revs && IsDescending(l) && (forall x :: x in l <==> x in revs - left)
    requires forall x, y :: x in l && y in left ==> x > y
    ensures Take(Descending(revs), |l|) == l
    ensures left == {} ==> Descending(revs) == l
  {
    var rest := Descending(left);
    var all := l + rest;
    forall i, j | 0 <= i < j < |all| ensures all[i] > all[j] {
      if i < |l| <= j { assert l[i] in l && rest[j - |l|] in rest; }
    }
    assert forall x :: x in all <==> x in l || x in rest;
    DescendingUnique(all, revs);
  }

  lemma ListedIsStored(t: Table, cluster: string, key: Bytes, bound: int, limit: nat)
    ensures var l := Take(Descending(Below(Revisions(t, cluster, key), bound)), limit);
            forall i :: 0 <= i < |l| ==> SnapId(cluster, key, l[i]) in t
  {
    var d := Descending(Below(Revisions(t, cluster, key), bound));
    forall i | 0 <= i < |Take(d, limit)| ensures SnapId(cluster, key, Take(d, limit)[i]) in t {
      assert d[i] in d;
    }
  }

  lemma RowExists(rows: set<Row>, hash: Bytes -> Bytes, t: Table, cluster: string, key: Bytes, revision: int)
    requires RowsMean(rows, hash, t) && SnapId(cluster, key, revision) in t
    ensures exists row :: row in rows && Matches(row, hash, cluster, key) && row.snapshot.entry.modRevision == revision
  {
    var id := SnapId(cluster, key, revision);
    assert Matches(Row(hash(id.key), t[id]), hash, cluster, key);
  }

  lemma NothingListed(rows: set<Row>, hash: Bytes -> Bytes, t: Table, cluster: string, key: Bytes, bound: int, limit: int)
    requires RowsMean(rows, hash, t) && (forall row :: row in rows ==> ValidSnapshot(row.snapshot))
    requires cluster == "" || key == [] || bound < 1 || limit < 1
    ensures History.ListBefore(t, cluster, key, bound, if limit < 0 then 0 else limit) == []
  {
    var low := Below(Revisions(t, cluster, key), bound);
    if limit >= 1 {
      forall id | id in t ensures IdOf(t[id]) == id && ValidSnapshot(t[id]) {
        assert Row(hash(id.key), t[id]) in rows;
      }
      assert low == {};
    }
  }

  function Delete(rows: set<Row>, hash: Bytes -> Bytes, cluster: string, key: Bytes, cutoff: int): set<Row> {
    set row | row in rows && !(Matches(row, hash, cluster, key) && row.snapshot.entry.modRevision < cutoff)
  }

  lemma DeleteMeans(rows: set<Row>, hash: Bytes -> Bytes, t: Table, cluster: string, key: Bytes, cutoff: int)
    requires RowsMean(rows, hash, t)
    ensures RowsMean(Delete(rows, hash, cluster, key, cutoff), hash, DeleteBelow(t, cluster, key, cutoff))
  {
  }

  /** Some keys are pruned already, the others untouched. */
  ghost predicate PartlyPruned(t: Table, keep: nat, left: set<(string, Bytes)>, u: Table) {
    && (forall id :: id in u ==> id in t && u[id] == t[id])
    && (forall id :: id in t ==> (id in u <==> (id.cluster, id.key) in left
                                                || id.revision in Latest(Revisions(t, id.cluster, id.key), keep)))
  }

  lemma PruneOneMore(t: Table, keep: nat, left: set<(string, Bytes)>, u: Table, cluster: string, key: Bytes)
    requires keep >= 1 && PartlyPruned(t, keep, left, u) && (cluster, key) in left
    ensures PartlyPruned(t, keep, left - {(cluster, key)}, PruneKey(u, cluster, key, keep))
  {
    assert Revisions(u, cluster, key) == Revisions(t, cluster, key);
    var v := PruneKey(u, cluster, key, keep);
    forall id | id in t
      ensures id in v <==> (id.cluster, id.key) in left - {(cluster, key)}
                           || id.revision in Latest(Revisions(t, id.cluster, id.key), keep)
    {
      if id.cluster == cluster && id.key == key {
        assert id in u;
      }
    }
  }

  class DatabaseHistory {
    const hash: Bytes -> Bytes
    var rows: set<Row>
    ghost var table: Table

    ghost predicate Valid()
      reads this
    {
      && CollisionFree(hash) && RowsMean(rows, hash, table)
      && forall row :: row in rows ==> ValidSnapshot(row.snapshot)
    }

    constructor (h: Bytes -> Bytes)
      requires CollisionFree(h)
      ensures Valid() && table == map[] && hash == h
    {
      hash := h;
      rows := {};
      table := map[];
    }

    /** INSERT that ignores a row whose cluster, key hash and revision exist; `executed` says whether the
        statement succeeded. */
    method Save(s: Snapshot, executed: bool) returns (r: Result<(), StoreError>)
      requires Valid()
      modifies this
      ensures Valid()
      ensures r == if !ValidSnapshot(s) then Err(InvalidSnapshot) else if !executed then Err(StatementFailed) else Ok(())
      ensures table == if r.Ok? then Insert(old(table), s) else old(table)
    {
      if !ValidSnapshot(s) { return Err(InvalidSnapshot); }
      if !executed { return Err(StatementFailed); }
      TakenIffStored(rows, hash, table, s);
      if !Taken(rows, hash, s) {
        rows := rows + {Row(hash(s.entry.key), s)};
        table := Insert(table, s);
      }
      return Ok(());
    }

    /** SELECT the rows of the key below a revision, newest first, at most `limit` of them. */
    method ListBefore(cluster: string, key: Bytes, bound: int, limit: int, selects: bool)
      returns (r: Result<seq<Snapshot>, StoreError>)
      requires Valid()
      ensures Consistent(table)
      ensures r.Ok? ==> r.value == History.ListBefore(table, cluster, key, bound, if limit < 0 then 0 else limit)
      ensures r.Err? ==> r == Err(StatementFailed) && !selects
    {
      if cluster == "" || key == [] || bound < 1 || limit < 1 {
        NothingListed(rows, hash, table, cluster, key, bound, limit);
        return Ok([]);
      }
      if !selects { return Err(StatementFailed); }
      var revs := SelectRevisions(rows, hash, cluster, key);
      SelectedRevisions(rows, hash, table, cluster, key);
      var newest := FirstDescending(Below(revs, bound), limit);
      ListedIsStored(table, cluster, key, bound, limit);
      var l := FetchRows(cluster, key, newest);
      r := Ok(l);
    }

    /** The rows of the key with the given revisions, in that order. */
    method FetchRows(cluster: string, key: Bytes, revs: seq<int>) returns (l: seq<Snapshot>)
      requires Valid() && forall i :: 0 <= i < |revs| ==> SnapId(cluster, key, revs[i]) in table
      ensures |l| == |revs| && forall i :: 0 <= i < |l| ==> l[i] == table[SnapId(cluster, key, revs[i])]
    {
      l := [];
      for n := 0 to |revs|
        invariant |l| == n
        invariant forall i :: 0 <= i < n ==> l[i] == table[SnapId(cluster, key, revs[i])]
      {
        RowExists(rows, hash, table, cluster, key, revs[n]);
        var row :| row in rows && Matches(row, hash, cluster, key) && row.snapshot.entry.modRevision == revs[n];
        l := l + [row.snapshot];
      }
    }

    /** SELECT the cutoff, then DELETE below it; either statement may fail. */
    method PruneKey(cluster: string, key: Bytes, keep: int, selects: bool, deletes: bool) returns (r: Result<(), StoreError>)
      requires Valid()
      modifies this
      ensures Valid()
      ensures r.Ok? && keep >= 0 ==> table == History.PruneKey(old(table), cluster, key, keep)
      ensures r.Err? || keep < 0 ==> table == old(table)
      ensures keep >= 0 && selects && deletes ==> r.Ok?
      ensures keep < 0 && cluster != "" && key != [] ==> r == Err(NegativeRetention)
    {
      if keep == 0 || cluster == "" || key == [] {
        if keep >= 0 { NoSuchKey(rows, hash, table, cluster, key, keep); }
        return Ok(());
      }
      if keep < 0 { return Err(NegativeRetention); }
      if !selects { return Err(StatementFailed); }
      var revs := SelectRevisions(rows, hash, cluster, key);
      SelectedRevisions(rows, hash, table, cluster, key);
      var cutoff := AtOffset(revs, keep - 1);
      if cutoff.None? {
        SmallKeyUntouched(table, cluster, key, keep);
        return Ok(());
      }
      if !deletes { return Err(StatementFailed); }
      CutBelow(cluster, key, keep, cutoff.value);
      return Ok(());
    }

    /** The DELETE statement. */
    method CutBelow(cluster: string, key: Bytes, keep: nat, cutoff: int)
      requires Valid() && IsCutoff(table, cluster, key, keep, cutoff)
      modifies this
      ensures Valid() && table == History.PruneKey(old(table), cluster, key, keep)
    {
      CutoffPrunes(table, cluster, key, keep, cutoff);
      DeleteMeans(rows, hash, table, cluster, key, cutoff);
      rows := Delete(rows, hash, cluster, key, cutoff);
      table := DeleteBelow(table, cluster, key, cutoff);
    }

    /** SELECT DISTINCT the keys, then prune each of them. A statement that fails midway leaves some keys pruned and
        the others untouched. */
    method Prune(keep: int, lists: bool, selects: (string, Bytes) -> bool, deletes: (string, Bytes) -> bool)
      returns (r: Result<(), StoreError>)
      requires Valid()
      modifies this
      ensures Valid()
      ensures r.Ok? ==> keep >= 0 && table == History.Prune(old(table), keep)
      ensures r.Err? ==> table == old(table) || (keep > 0 && exists left :: PartlyPruned(old(table), keep, left, table))
      ensures keep > 0 ==> KeepsNewest(old(table), keep, table)
      ensures keep >= 0 && lists && (forall c, k :: selects(c, k) && deletes(c, k)) ==> r.Ok?
      ensures keep < 0 ==> r == Err(NegativeRetention)
    {
      if keep == 0 { return Ok(()); }
      if keep < 0 { return Err(NegativeRetention); }
      if !lists { return Err(StatementFailed); }
      var left := set row | row in rows :: (row.snapshot.cluster, row.snapshot.entry.key);
      ghost var t := table;
      forall id | id in t ensures (id.cluster, id.key) in left {
        assert Row(hash(id.key), t[id]) in rows;
      }
      while left != {}
        invariant Valid() && PartlyPruned(t, keep, left, table)
        decreases left
      {
        ghost var some := AnElement(left);
        var p :| p in left;
        PruneOneMore(t, keep, left, table, p.0, p.1);
        r := PruneKey(p.0, p.1, keep, selects(p.0, p.1), deletes(p.0, p.1));
        if r.Err? {
          PartlyPrunedKeeps(t, keep, left, table);
          return;
        }
        left := left - {p};
      }
      PartlyPrunedKeeps(t, keep, left, table);
      PrunedAll(t, keep, table);
      r := Ok(());
    }
  }

  lemma NoSuchKey(rows: set<Row>, hash: Bytes -> Bytes, t: Table, cluster: string, key: Bytes, keep: nat)
    requires RowsMean(rows, hash, t) && (forall row :: row in rows ==> ValidSnapshot(row.snapshot))
    requires keep == 0 || cluster == "" || key == []
    ensures History.PruneKey(t, cluster, key, keep) == t
  {
    forall id | id in t && keep > 0 ensures !(id.cluster == cluster && id.key == key) {
      assert ValidSnapshot(Row(hash(id.key), t[id]).snapshot);
    }
  }

  lemma PrunedAll(t: Table, keep: nat, u: Table)
    requires keep > 0 && PartlyPruned(t, keep, {}, u)
    ensures u == History.Prune(t, keep)
  {
  }

  /** The newest `keep` revisions of every key are there, and nothing that was not. */
  ghost predicate KeepsNewest(t: Table, keep: nat, u: Table) {
    && (forall id :: id in u ==> id in t && u[id] == t[id])
    && (forall id :: id in t && id.revision in Latest(Revisions(t, id.cluster, id.key), keep) ==> id in u)
  }

  lemma PartlyPrunedKeeps(t: Table, keep: nat, left: set<(string, Bytes)>, u: Table)
    requires PartlyPruned(t, keep, left, u)
    ensures KeepsNewest(t, keep, u)
  {
  }
}
