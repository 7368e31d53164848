/** What the requests are for: each of them, left alone, does exactly what was asked. The steps of one request,
    taken without interference, amount to one read, whole saves with their retention, and one write. */
module ArchiveEffects {
  import opened Store
  import opened Mvcc
  import opened History
  import opened Archive
  import opened ArchiveSafety
  import HistoryFile
  import Rollback
  import Text
  import RollbackWalk

  /** Only request `id` steps, and it is not abandoned. */
  ghost predicate Alone(id: nat, acts: seq<Action>) {
    forall i :: 0 <= i < |acts| ==> IsStepOf(acts[i], id)
  }

  predicate IsStepOf(a: Action, id: nat) {
    match a
    case Read(q) => q == id
    case Resolve(q) => q == id
    case Fetch(q) => q == id
    case LoadRetention(q) => q == id
    case InsertSnapshot(q, _) => q == id
    case SelectCutoff(q) => q == id
    case DeleteExpired(q) => q == id
    case Write(q) => q == id
    case _ => false
  }

  /** Left alone, `id` takes the system from `s` to `s'`. */
  ghost predicate Leads(s: State, id: nat, s': State) {
    exists acts :: Alone(id, acts) && Executes(s, acts) && Final(s, acts) == s'
  }

  lemma LeadsNowhere(s: State, id: nat)
    ensures Leads(s, id, s)
  {
    assert Alone(id, []) && Executes(s, []) && Final(s, []) == s;
  }

  lemma LeadsFirst(s: State, id: nat, a: Action, s': State)
    requires Enabled(s, a) && IsStepOf(a, id) && Leads(Next(s, a), id, s')
    ensures Leads(s, id, s')
  {
    var acts :| Alone(id, acts) && Executes(Next(s, a), acts) && Final(Next(s, a), acts) == s';
    var all := [a] + acts;
    assert all[1..] == acts;
    assert Executes(s, all) && Final(s, all) == s';
    assert Alone(id, all);
  }

  // ----- One snapshot -----

  /** One save with its retention, as one operation. */
  ghost function Saved(t: Table, cluster: string, e: Entry, retention: nat, now: int): Table {
    PruneKey(Insert(t, Snapshot(cluster, e, now)), cluster, e.key, retention)
  }

  ghost function SavedAll(t: Table, cluster: string, todo: seq<Entry>, retention: nat, now: int): Table
    decreases |todo|
  {
    if todo == [] then t else SavedAll(Saved(t, cluster, todo[0], retention, now), cluster, todo[1..], retention, now)
  }

  /** Reading the retention, inserting, selecting the cutoff and deleting below it is one save with its retention. */
  lemma SaveSteps(s: State, id: nat, now: int, s': State)
    requires At(s, id) && s.requests[id].pc.Saving? && s.requests[id].todo != [] && s.requests[id].todo[0].key == s.requests[id].key
    requires var r := s.requests[id];
      var t' := Saved(s.table, r.cluster, r.todo[0], s.retention, now);
      Leads(s.(table := t', requests := s.requests[id := Advance(r)]), id, s')
    ensures Leads(s, id, s')
  {
    var r := s.requests[id];
    var s1 := Next(s, LoadRetention(id));
    var s2 := Next(s1, InsertSnapshot(id, now));
    var s3 := Next(s2, SelectCutoff(id));
    var end := s.(table := Saved(s.table, r.cluster, r.todo[0], s.retention, now), requests := s.requests[id := Advance(r)]);
    SelectedSteps(s, s2, id, s.retention, end, s');
    LeadsFirst(s1, id, InsertSnapshot(id, now), s');
    LeadsFirst(s, id, LoadRetention(id), s');
  }

  lemma SelectedSteps(s: State, s2: State, id: nat, keep: nat, end: State, s': State)
    requires At(s, id) && s.requests[id].todo != []
    requires s2.etcds == s.etcds && s2 == s.(table := s2.table, requests := s.requests[id := s.requests[id].(pc := Selecting(keep))])
    requires end == s.(table := PruneKey(s2.table, s.requests[id].cluster, s.requests[id].key, keep),
                       requests := s.requests[id := Advance(s.requests[id])])
    requires Leads(end, id, s')
    ensures Leads(s2, id, s')
  {
    var r := s.requests[id];
    var revs := Revisions(s2.table, r.cluster, r.key);
    var s3 := Next(s2, SelectCutoff(id));
    if 1 <= keep <= |revs| {
      CutoffPrunes(s2.table, r.cluster, r.key, keep, CutoffOf(revs, keep));
      assert Next(s3, DeleteExpired(id)) == end;
      LeadsFirst(s3, id, DeleteExpired(id), s');
    } else {
      if keep > 0 { SmallKeyUntouched(s2.table, r.cluster, r.key, keep); }
      assert s3 == end;
    }
    LeadsFirst(s2, id, SelectCutoff(id), s');
  }

  /** All the saves of a request, then its write is next. */
  lemma {:induction false} SavesSteps(s: State, id: nat, now: int, s': State)
    requires At(s, id) && s.requests[id].pc.Saving? && s.requests[id].todo != []
    requires forall i :: 0 <= i < |s.requests[id].todo| ==> s.requests[id].todo[i].key == s.requests[id].key
    requires var r := s.requests[id];
      Leads(s.(table := SavedAll(s.table, r.cluster, r.todo, s.retention, now),
               requests := s.requests[id := r.(pc := Writing, todo := [])]), id, s')
    ensures Leads(s, id, s')
    decreases |s.requests[id].todo|
  {
    var r := s.requests[id];
    var t' := Saved(s.table, r.cluster, r.todo[0], s.retention, now);
    var mid := s.(table := t', requests := s.requests[id := Advance(r)]);
    if |r.todo| == 1 {
      assert r.todo[1..] == [];
      assert SavedAll(t', r.cluster, [], s.retention, now) == t';
    } else {
      assert mid.requests[id := r.(pc := Writing, todo := [])] == s.requests[id := r.(pc := Writing, todo := [])];
      SavesSteps(mid, id, now, s');
    }
    SaveSteps(s, id, now, s');
  }

  // ----- Puts and deletes -----

  /** The version read is the one expected, if one is expected. */
  predicate Expected(db: Etcd, r: Request) {
    r.expected.None? || r.expected.value == ModRevision(db, r.key)
  }

  /** The state after request `r` answered, with the given table and log. */
  function Answered(s: State, id: nat, cluster: string, t: Table, log: seq<Txn>): State
    requires cluster in s.etcds
  {
    s.(table := t, requests := s.requests - {id}, etcds := s.etcds[cluster := s.etcds[cluster].(log := log)])
  }

  lemma LastWriteStep(s: State, id: nat, s': State)
    requires Enabled(s, Write(id)) && Next(s, Write(id)) == s'
    ensures Leads(s, id, s')
  {
    LeadsNowhere(s', id);
    LeadsFirst(s, id, Write(id), s');
  }

  /** A put left alone writes its value exactly when the key is at the expected version, after saving the version it
      replaces with its retention; otherwise nothing changes. */
  lemma PutAlone(s: State, id: nat, now: int)
    requires Inv(s) && Enabled(s, Read(id)) && s.requests[id].kind.PutKey?
    ensures var r := s.requests[id];
      var db := s.etcds[r.cluster];
      Leads(s, id, Answered(s, id, r.cluster,
        if Expected(db, r) && Current(db, r.key).Some?
        then Saved(s.table, r.cluster, Current(db, r.key).value, s.retention, now) else s.table,
        if Expected(db, r) then db.log + [map[r.key := Put(r.kind.value, 0)]] else db.log))
  {
    ReplaceAlone(s, id, now);
  }

  /** A delete left alone deletes exactly when the key exists at the expected version, after saving that version. */
  lemma DeleteAlone(s: State, id: nat, now: int)
    requires Inv(s) && Enabled(s, Read(id)) && s.requests[id].kind.DeleteKey?
    ensures var r := s.requests[id];
      var db := s.etcds[r.cluster];
      var deletes := Expected(db, r) && Current(db, r.key).Some?;
      Leads(s, id, Answered(s, id, r.cluster,
        if deletes then Saved(s.table, r.cluster, Current(db, r.key).value, s.retention, now) else s.table,
        if deletes then db.log + [map[r.key := Delete]] else db.log))
  {
    ReplaceAlone(s, id, now);
  }

  lemma ReplaceAlone(s: State, id: nat, now: int)
    requires Inv(s) && Enabled(s, Read(id)) && !s.requests[id].kind.RollbackKey?
    ensures var r := s.requests[id];
      var db := s.etcds[r.cluster];
      var op := if r.kind.PutKey? then Put(r.kind.value, 0) else Delete;
      var commits := Expected(db, r) && (r.kind.DeleteKey? ==> Current(db, r.key).Some?);
      Leads(s, id, Answered(s, id, r.cluster,
        if Expected(db, r) && Current(db, r.key).Some?
        then Saved(s.table, r.cluster, Current(db, r.key).value, s.retention, now) else s.table,
        if commits then db.log + [map[r.key := op]] else db.log))
  {
    var r := s.requests[id];
    assert RequestOk(s, r);
    var db := s.etcds[r.cluster];
    assert s.etcds[r.cluster := db.(log := db.log)] == s.etcds;
    if Current(db, r.key).Some? {
      if Expected(db, r) { ReplaceFound(s, id, now); } else { RefusedAtRead(s, id); }
    } else if r.kind.DeleteKey? {
      RefusedAtRead(s, id);
    } else {
      PutAbsent(s, id);
    }
  }

  lemma RefusedAtRead(s: State, id: nat)
    requires Enabled(s, Read(id))
    requires ReadStep(s.etcds[s.requests[id].cluster], s.requests[id]).None?
    ensures Leads(s, id, s.(requests := s.requests - {id}))
  {
    LeadsNowhere(Next(s, Read(id)), id);
    LeadsFirst(s, id, Read(id), s.(requests := s.requests - {id}));
  }

  lemma PutAbsent(s: State, id: nat)
    requires Enabled(s, Read(id)) && s.requests[id].kind.PutKey? && s.requests[id].todo == []
    requires Current(s.etcds[s.requests[id].cluster], s.requests[id].key).None?
    ensures var r := s.requests[id];
      var db := s.etcds[r.cluster];
      Leads(s, id, Answered(s, id, r.cluster, s.table,
        if Expected(db, r) then db.log + [map[r.key := Put(r.kind.value, 0)]] else db.log))
  {
    var r := s.requests[id];
    var db := s.etcds[r.cluster];
    var s1 := Next(s, Read(id));
    var end := Answered(s, id, r.cluster, s.table, if Expected(db, r) then db.log + [map[r.key := Put(r.kind.value, 0)]] else db.log);
    assert s1.requests - {id} == s.requests - {id};
    LastWriteStep(s1, id, end);
    LeadsFirst(s, id, Read(id), end);
  }

  lemma ReplaceFound(s: State, id: nat, now: int)
    requires Enabled(s, Read(id)) && !s.requests[id].kind.RollbackKey?
    requires Current(s.etcds[s.requests[id].cluster], s.requests[id].key).Some?
    requires Expected(s.etcds[s.requests[id].cluster], s.requests[id])
    ensures var r := s.requests[id];
      var db := s.etcds[r.cluster];
      var op := if r.kind.PutKey? then Put(r.kind.value, 0) else Delete;
      Leads(s, id, Answered(s, id, r.cluster, Saved(s.table, r.cluster, Current(db, r.key).value, s.retention, now),
                            db.log + [map[r.key := op]]))
  {
    var r := s.requests[id];
    var db := s.etcds[r.cluster];
    var e := Current(db, r.key).value;
    var t' := Saved(s.table, r.cluster, e, s.retention, now);
    var s1 := Next(s, Read(id));
    var r1 := s1.requests[id];
    var s2 := s1.(table := t', requests := s1.requests[id := r1.(pc := Writing, todo := [])]);
    var op := if r.kind.PutKey? then Put(r.kind.value, 0) else Delete;
    var end := Answered(s, id, r.cluster, t', db.log + [map[r.key := op]]);
    assert [e][1..] == [] && SavedAll(s.table, r.cluster, [e], s.retention, now) == SavedAll(t', r.cluster, [], s.retention, now);
    assert s2.requests - {id} == s.requests - {id};
    LastWriteStep(s2, id, end);
    SavesSteps(s1, id, now, end);
    LeadsFirst(s, id, Read(id), end);
  }

  // ----- Rollbacks -----

  /** What a rollback saves before it writes: the target too, if it came from etcd. */
  function RollbackTodo(current: Entry, target: Rollback.Candidate): seq<Entry> {
    if target.source == Rollback.Storage then [current] else [target.entry, current]
  }

  /** A rollback left alone writes the value of the version that rollbackTarget finds, after saving; when it finds
      none, nothing changes. */
  lemma RollbackAlone(s: State, id: nat, now: int)
    requires Inv(s) && Enabled(s, Read(id)) && s.requests[id].kind.RollbackKey? && s.requests[id].expected.Some?
    ensures var r := s.requests[id];
      var db := s.etcds[r.cluster];
      var found := RollbackWalk.RollbackTarget(s.table, db, r.cluster, r.key, r.expected.value, r.kind.target);
      if found.Err? then Leads(s, id, s.(requests := s.requests - {id}))
      else Leads(s, id, Answered(s, id, r.cluster,
             SavedAll(s.table, r.cluster, RollbackTodo(found.value.0, found.value.1), s.retention, now),
             db.log + [map[r.key := Put(found.value.1.entry.value, 0)]]))
  {
    var r := s.requests[id];
    assert RequestOk(s, r);
    var db := s.etcds[r.cluster];
    var current := Current(db, r.key);
    if current.None? || r.expected != Some(current.value.modRevision) || r.kind.target < 1 || r.kind.target >= current.value.modRevision {
      RefusedAtRead(s, id);
    } else {
      RollbackFound(s, id, now);
    }
  }

  /** Where rollbackTarget finds the version. */
  lemma TargetFound(t: Table, db: Etcd, cluster: string, key: Bytes, expected: int, target: int)
    requires Consistent(t) && Current(db, key).Some? && ModRevision(db, key) == expected && 1 <= target < expected
    ensures var answer := RollbackWalk.RollbackTarget(t, db, cluster, key, expected, target);
      var fetched := GetAtRevision(db, key, target);
      var id := SnapId(cluster, key, target);
      if id in t then
        answer == Ok((Current(db, key).value, Rollback.Candidate(t[id].entry, Rollback.Storage, t[id].capturedAt)))
      else if fetched.Ok? && fetched.value.Some? && fetched.value.value.modRevision == target then
        answer == Ok((Current(db, key).value, Rollback.Candidate(fetched.value.value, Rollback.FromEtcd, 0)))
      else answer.Err?
  {
    RollbackWalk.StoredLookup(t, cluster, key, target);
  }

  lemma RollbackFound(s: State, id: nat, now: int)
    requires Inv(s) && Resolvable(s, id)
    ensures var r := s.requests[id];
      var db := s.etcds[r.cluster];
      var found := RollbackWalk.RollbackTarget(s.table, db, r.cluster, r.key, r.expected.value, r.kind.target);
      if found.Err? then Leads(s, id, s.(requests := s.requests - {id}))
      else Leads(s, id, Answered(s, id, r.cluster,
             SavedAll(s.table, r.cluster, RollbackTodo(found.value.0, found.value.1), s.retention, now),
             db.log + [map[r.key := Put(found.value.1.entry.value, 0)]]))
  {
    var r := s.requests[id];
    TargetFound(s.table, s.etcds[r.cluster], r.cluster, r.key, r.expected.value, r.kind.target);
    if SnapId(r.cluster, r.key, r.kind.target) in s.table {
      RollbackStored(s, id, now);
    } else {
      RollbackFetched(s, id, now);
    }
  }

  /** The request read its key at the expected version, above the target. */
  ghost predicate Resolvable(s: State, id: nat) {
    && Enabled(s, Read(id))
    && var r := s.requests[id];
       && r.kind.RollbackKey?
       && Current(s.etcds[r.cluster], r.key).Some?
       && r.expected == Some(Current(s.etcds[r.cluster], r.key).value.modRevision)
       && 1 <= r.kind.target < r.expected.value
  }

  lemma RollbackWrites(s: State, id: nat, s1: State, todo: seq<Entry>, found: Entry, now: int)
    requires Resolvable(s, id) && todo != [] && forall i :: 0 <= i < |todo| ==> todo[i].key == s.requests[id].key
    requires var r := s.requests[id];
      var db := s.etcds[r.cluster];
      s1 == s.(requests := s.requests[id := r.(pc := Saving, current := Current(db, r.key), readAt := |db.log|,
                                               previous := Some(found), todo := todo)])
    ensures var r := s.requests[id];
      var db := s.etcds[r.cluster];
      Leads(s1, id, Answered(s, id, r.cluster, SavedAll(s.table, r.cluster, todo, s.retention, now),
                             db.log + [map[r.key := Put(found.value, 0)]]))
  {
    var r, r1 := s.requests[id], s1.requests[id];
    var db := s.etcds[r.cluster];
    var t' := SavedAll(s.table, r.cluster, todo, s.retention, now);
    var s2 := s1.(table := t', requests := s1.requests[id := r1.(pc := Writing, todo := [])]);
    var end := Answered(s, id, r.cluster, t', db.log + [map[r.key := Put(found.value, 0)]]);
    assert s2.requests - {id} == s.requests - {id};
    LastWriteStep(s2, id, end);
    SavesSteps(s1, id, now, end);
  }

  /** The request at each of its first program counters. */
  function Reached(s: State, id: nat, pc: Pc): State
    requires At(s, id)
  {
    var r := s.requests[id];
    var db := s.etcds[r.cluster];
    s.(requests := s.requests[id := r.(pc := pc, current := Current(db, r.key), readAt := |db.log|)])
  }

  function Found(s: State, id: nat, found: Entry, todo: seq<Entry>): State
    requires At(s, id)
  {
    var r := s.requests[id];
    var db := s.etcds[r.cluster];
    s.(requests := s.requests[id := r.(pc := Saving, current := Current(db, r.key), readAt := |db.log|,
                                       previous := Some(found), todo := todo)])
  }

  lemma ReadSteps(s: State, id: nat, s': State)
    requires Resolvable(s, id) && Leads(Reached(s, id, Resolving), id, s')
    ensures Leads(s, id, s')
  {
    assert Next(s, Read(id)) == Reached(s, id, Resolving);
    LeadsFirst(s, id, Read(id), s');
  }

  lemma ResolveStored(s: State, id: nat, s': State)
    requires Resolvable(s, id)
    requires var r := s.requests[id];
      var target := SnapId(r.cluster, r.key, r.kind.target);
      target in s.table && Leads(Found(s, id, s.table[target].entry, [Current(s.etcds[r.cluster], r.key).value]), id, s')
    ensures Leads(Reached(s, id, Resolving), id, s')
  {
    var r, s1 := s.requests[id], Reached(s, id, Resolving);
    var target := SnapId(r.cluster, r.key, r.kind.target);
    var s2 := Found(s, id, s.table[target].entry, [Current(s.etcds[r.cluster], r.key).value]);
    assert Next(s1, Resolve(id)).requests == s2.requests;
    LeadsFirst(s1, id, Resolve(id), s');
  }

  lemma ResolveElsewhere(s: State, id: nat, s': State)
    requires Resolvable(s, id) && Leads(Reached(s, id, Fetching), id, s')
    requires SnapId(s.requests[id].cluster, s.requests[id].key, s.requests[id].kind.target) !in s.table
    ensures Leads(Reached(s, id, Resolving), id, s')
  {
    var s1 := Reached(s, id, Resolving);
    assert Next(s1, Resolve(id)).requests == Reached(s, id, Fetching).requests;
    LeadsFirst(s1, id, Resolve(id), s');
  }

  lemma FetchSteps(s: State, id: nat, e: Entry, s': State)
    requires Resolvable(s, id)
    requires var r := s.requests[id];
      var db := s.etcds[r.cluster];
      GetAtRevision(db, r.key, r.kind.target) == Ok(Some(e)) && e.modRevision == r.kind.target &&
      Leads(Found(s, id, e, [e, Current(db, r.key).value]), id, s')
    ensures Leads(Reached(s, id, Fetching), id, s')
  {
    var r, s1 := s.requests[id], Reached(s, id, Fetching);
    var s2 := Found(s, id, e, [e, Current(s.etcds[r.cluster], r.key).value]);
    assert Next(s1, Fetch(id)).requests == s2.requests;
    LeadsFirst(s1, id, Fetch(id), s');
  }

  lemma FetchRefused(s: State, id: nat)
    requires Resolvable(s, id)
    requires var r := s.requests[id];
      var answer := GetAtRevision(s.etcds[r.cluster], r.key, r.kind.target);
      !(answer.Ok? && answer.value.Some? && answer.value.value.modRevision == r.kind.target)
    ensures Leads(Reached(s, id, Fetching), id, s.(requests := s.requests - {id}))
  {
    var s1, end := Reached(s, id, Fetching), s.(requests := s.requests - {id});
    assert Next(s1, Fetch(id)).requests == end.requests;
    LeadsNowhere(end, id);
    LeadsFirst(s1, id, Fetch(id), end);
  }

  lemma RollbackStored(s: State, id: nat, now: int)
    requires Inv(s) && Resolvable(s, id)
    requires SnapId(s.requests[id].cluster, s.requests[id].key, s.requests[id].kind.target) in s.table
    ensures var r := s.requests[id];
      var db := s.etcds[r.cluster];
      var found := s.table[SnapId(r.cluster, r.key, r.kind.target)].entry;
      Leads(s, id, Answered(s, id, r.cluster,
        SavedAll(s.table, r.cluster, [Current(db, r.key).value], s.retention, now),
        db.log + [map[r.key := Put(found.value, 0)]]))
  {
    var r := s.requests[id];
    var db := s.etcds[r.cluster];
    var found := s.table[SnapId(r.cluster, r.key, r.kind.target)].entry;
    var todo := [Current(db, r.key).value];
    var end := Answered(s, id, r.cluster, SavedAll(s.table, r.cluster, todo, s.retention, now),
                        db.log + [map[r.key := Put(found.value, 0)]]);
    RollbackWrites(s, id, Found(s, id, found, todo), todo, found, now);
    ResolveStored(s, id, end);
    ReadSteps(s, id, end);
  }

  lemma RollbackFetched(s: State, id: nat, now: int)
    requires Inv(s) && Resolvable(s, id)
    requires SnapId(s.requests[id].cluster, s.requests[id].key, s.requests[id].kind.target) !in s.table
    ensures var r := s.requests[id];
      var db := s.etcds[r.cluster];
      var answer := GetAtRevision(db, r.key, r.kind.target);
      if answer.Ok? && answer.value.Some? && answer.value.value.modRevision == r.kind.target then
        Leads(s, id, Answered(s, id, r.cluster,
          SavedAll(s.table, r.cluster, [answer.value.value, Current(db, r.key).value], s.retention, now),
          db.log + [map[r.key := Put(answer.value.value.value, 0)]]))
      else Leads(s, id, s.(requests := s.requests - {id}))
  {
    var r := s.requests[id];
    var db := s.etcds[r.cluster];
    var answer := GetAtRevision(db, r.key, r.kind.target);
    var end;
    if answer.Ok? && answer.value.Some? && answer.value.value.modRevision == r.kind.target {
      var e := answer.value.value;
      var todo := [e, Current(db, r.key).value];
      end := Answered(s, id, r.cluster, SavedAll(s.table, r.cluster, todo, s.retention, now),
                      db.log + [map[r.key := Put(e.value, 0)]]);
      RollbackWrites(s, id, Found(s, id, e, todo), todo, e, now);
      FetchSteps(s, id, e, end);
    } else {
      end := s.(requests := s.requests - {id});
      FetchRefused(s, id);
    }
    ResolveElsewhere(s, id, end);
    ReadSteps(s, id, end);
  }

  // ----- What the surroundings can do -----

  function Appended(db: Etcd, txns: seq<Txn>): Etcd { db.(log := db.log + txns) }

  /** Outside writers can bring about any further history, and compaction and the retention any later setting. */
  lemma {:induction false} AnySurroundings(s: State, cluster: string, txns: seq<Txn>, at: nat, keep: nat) returns (acts: seq<Action>)
    requires cluster in s.etcds && forall i :: 0 <= i < |txns| ==> txns[i] != map[]
    requires s.etcds[cluster].compacted <= at <= |s.etcds[cluster].log| + |txns|
    ensures Executes(s, acts)
    ensures Final(s, acts) == s.(etcds := s.etcds[cluster := Appended(s.etcds[cluster], txns).(compacted := at)], retention := keep)
    decreases |txns|
  {
    if txns == [] {
      acts := Settings(s, cluster, at, keep);
      assert s.etcds[cluster].log + [] == s.etcds[cluster].log;
    } else {
      var write := OutsideWrite(cluster, txns[0]);
      var s' := Next(s, write);
      var rest := AnySurroundings(s', cluster, txns[1..], at, keep);
      acts := [write] + rest;
      ExecutesFirst(s, write, rest);
      AppendedFirst(s.etcds[cluster], txns);
      var end := Appended(s.etcds[cluster], txns).(compacted := at);
      assert s'.etcds[cluster := end] == s.etcds[cluster := end];
    }
  }

  lemma AppendedFirst(db: Etcd, txns: seq<Txn>)
    requires txns != []
    ensures Appended(Append(db, txns[0]), txns[1..]) == Appended(db, txns)
  {
    assert db.log + [txns[0]] + txns[1..] == db.log + txns;
  }

  lemma Settings(s: State, cluster: string, at: nat, keep: nat) returns (acts: seq<Action>)
    requires cluster in s.etcds && s.etcds[cluster].compacted <= at <= |s.etcds[cluster].log|
    ensures Executes(s, acts)
    ensures Final(s, acts) == s.(etcds := s.etcds[cluster := s.etcds[cluster].(compacted := at)], retention := keep)
  {
    var compact, retain := Compact(cluster, at), SetRetention(keep);
    var s1 := Next(s, compact);
    assert Executes(Next(s1, retain), []) && Final(Next(s1, retain), []) == Next(s1, retain);
    ExecutesFirst(s1, retain, []);
    ExecutesFirst(s, compact, [retain] + []);
    acts := [compact] + ([retain] + []);
  }

  lemma ExecutesFirst(s: State, a: Action, acts: seq<Action>)
    requires Enabled(s, a) && Executes(Next(s, a), acts)
    ensures Executes(s, [a] + acts) && Final(s, [a] + acts) == Final(Next(s, a), acts)
  {
    assert ([a] + acts)[1..] == acts;
  }

  /** A request that is submitted starts to run, and its key and guard are what was asked for. */
  lemma SubmitStarts(s: State, cluster: string, key: Bytes, kind: Kind, expected: Option<int>)
    requires Inv(s) && Enabled(s, Submit(cluster, key, kind, expected))
    ensures var s' := Next(s, Submit(cluster, key, kind, expected));
      && Enabled(s', Read(s.nextId)) && Inv(s') && s'.etcds == s.etcds && s'.table == s.table && s'.retention == s.retention
      && s'.requests[s.nextId].cluster == cluster && s'.requests[s.nextId].key == key
      && s'.requests[s.nextId].kind == kind && s'.requests[s.nextId].expected == expected
  {
    StepKeeps(s, Submit(cluster, key, kind, expected));
  }

  /** A prune started elsewhere, from its plan to its deletion, is one retention of that key. */
  lemma PruneElsewhere(s: State, cluster: string, key: Bytes, keep: nat)
    requires Enabled(s, PlanPrune(cluster, key, keep)) && s.prunes == {}
    ensures var plan := PendingPrune(cluster, key, CutoffOf(Revisions(s.table, cluster, key), keep));
      var s' := Next(s, PlanPrune(cluster, key, keep));
      Enabled(s', ApplyPrune(plan)) && Next(s', ApplyPrune(plan)) == s.(table := PruneKey(s.table, cluster, key, keep))
  {
    CutoffPrunes(s.table, cluster, key, keep, CutoffOf(Revisions(s.table, cluster, key), keep));
  }

  /** A request that is abandoned leaves the stores as they are. */
  lemma AbortStops(s: State, id: nat)
    requires Enabled(s, Abort(id))
    ensures Next(s, Abort(id)) == s.(requests := s.requests - {id})
  {
  }

  /** Every version of a key can be stored: what the requests save is never refused as invalid. */
  lemma VersionsAreStorable(db: Etcd, cluster: string, key: Bytes, e: Entry, now: int)
    requires IsVersion(db, key, e) && key != [] && !Text.Blank(cluster)
    ensures HistoryFile.ValidSnapshot(Snapshot(cluster, e, now))
  {
  }
}
