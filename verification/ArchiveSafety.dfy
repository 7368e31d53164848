/** Safety of the archive-before-overwrite protocol, over every run. */
module ArchiveSafety {
  import opened Store
  import opened Mvcc
  import opened History
  import opened Archive

  // ----- How the stores may change between two states -----

  ghost predicate Grows(db: Etcd, db': Etcd) {
    db.log <= db'.log
  }

  /** Logs only grow, and a snapshot disappears only once a newer write of its key exists. */
  ghost predicate Evolves(s: State, s': State) {
    && s'.etcds.Keys == s.etcds.Keys
    && (forall c :: c in s.etcds ==> Grows(s.etcds[c], s'.etcds[c]))
    && (forall id :: id in s.table && id.cluster in s.etcds ==>
          (id in s'.table && s'.table[id] == s.table[id]) || id.revision < Newest(s.etcds[id.cluster], id.key))
  }

  lemma GrowthKeepsPast(db: Etcd, db': Etcd, key: Bytes, r: nat)
    requires Grows(db, db') && r <= |db.log|
    ensures EntryAt(db'.log, key, r) == EntryAt(db.log, key, r)
    ensures LastWrite(db'.log, key, r) == LastWrite(db.log, key, r)
  {
    assert db'.log == db.log + db'.log[|db.log|..];
    PastIsFixed(db.log, db'.log[|db.log|..], key, r);
  }

  lemma NewestGrows(db: Etcd, db': Etcd, key: Bytes)
    requires Grows(db, db')
    ensures Newest(db, key) <= Newest(db', key)
  {
    GrowthKeepsPast(db, db', key, |db.log|);
    LastWriteFrom(db'.log, key, |db.log|, |db'.log|);
  }

  lemma VersionStays(db: Etcd, db': Etcd, key: Bytes, e: Entry)
    requires Grows(db, db') && IsVersion(db, key, e)
    ensures IsVersion(db', key, e)
  {
    GrowthKeepsPast(db, db', key, e.modRevision);
  }

  /** A version is never above the newest write of its key, and it is the visible one if it is that write. */
  lemma VersionBound(db: Etcd, key: Bytes, e: Entry)
    requires IsVersion(db, key, e)
    ensures e.modRevision <= Newest(db, key)
    ensures e.modRevision == Newest(db, key) ==> Current(db, key) == Some(e)
  {
    VisibleIsLastWrite(db.log, key, e.modRevision);
    LastWriteFrom(db.log, key, e.modRevision, |db.log|);
  }

  lemma FaithfulGrows(etcds: map<string, Etcd>, etcds': map<string, Etcd>, t: Table)
    requires Faithful(etcds, t) && etcds'.Keys == etcds.Keys
    requires forall c :: c in etcds ==> Grows(etcds[c], etcds'[c])
    ensures Faithful(etcds', t)
  {
    forall id | id in t ensures IsVersion(etcds'[id.cluster], id.key, t[id].entry) {
      VersionStays(etcds[id.cluster], etcds'[id.cluster], id.key, t[id].entry);
    }
  }

  lemma StoredBelowNewest(s: State, cluster: string, key: Bytes, r: int)
    requires Faithful(s.etcds, s.table) && r in Revisions(s.table, cluster, key)
    ensures cluster in s.etcds && r <= Newest(s.etcds[cluster], key)
  {
    var id := SnapId(cluster, key, r);
    VersionBound(s.etcds[cluster], key, s.table[id].entry);
  }

  lemma HeldStays(s: State, s': State, r: Request, e: Entry)
    requires Evolves(s, s') && r.cluster in s.etcds && Held(s, r, e)
    ensures Held(s', r, e)
  {
    NewestGrows(s.etcds[r.cluster], s'.etcds[r.cluster], r.key);
  }

  /** A request that does not step keeps what its program counter promises. */
  lemma RequestStays(s: State, s': State, r: Request)
    requires Evolves(s, s') && RequestOk(s, r)
    ensures RequestOk(s', r)
  {
    var db, db' := s.etcds[r.cluster], s'.etcds[r.cluster];
    if r.current.Some? { VersionStays(db, db', r.key, r.current.value); }
    if r.previous.Some? { VersionStays(db, db', r.key, r.previous.value); }
    forall i | 0 <= i < |r.todo| ensures IsVersion(db', r.key, r.todo[i]) {
      VersionStays(db, db', r.key, r.todo[i]);
    }
    NewestGrows(db, db', r.key);
    match r.pc
    case Selecting(_) => HeldStays(s, s', r, r.todo[0]);
    case Deleting(_) => HeldStays(s, s', r, r.todo[0]);
    case Writing =>
      if r.current.Some? { HeldStays(s, s', r, r.current.value); } else { AbsenceStays(db, db', r.key, r.readAt); }
    case _ =>
  }

  /** A key absent at `readAt` can only come back with a later revision. */
  lemma AbsenceStays(db: Etcd, db': Etcd, key: Bytes, readAt: nat)
    requires Grows(db, db') && readAt <= |db.log|
    requires Current(db, key).Some? ==> ModRevision(db, key) > readAt
    ensures Current(db', key).Some? ==> ModRevision(db', key) > readAt
  {
    if Current(db', key).Some? {
      VisibleIsLastWrite(db'.log, key, |db'.log|);
      if Newest(db', key) <= |db.log| {
        LastWriteFrom(db'.log, key, |db.log|, |db'.log|);
        GrowthKeepsPast(db, db', key, |db.log|);
      }
    }
  }

  /** The stores evolve and at most request `id` moves: enough to check the new table and that request. */
  lemma OthersStay(s: State, s': State, id: nat)
    requires Inv(s) && Evolves(s, s') && Faithful(s'.etcds, s'.table)
    requires forall c :: c in s'.etcds ==> s'.etcds[c].compacted <= |s'.etcds[c].log|
    requires s'.nextId >= s.nextId && s'.prunes <= s.prunes
    requires s'.requests.Keys <= s.requests.Keys + {id}
    requires forall q :: q in s'.requests && q != id ==> s'.requests[q] == s.requests[q]
    requires id in s'.requests ==> id < s'.nextId && RequestOk(s', s'.requests[id])
    ensures Inv(s')
  {
    forall q | q in s'.requests && q != id ensures q < s'.nextId && RequestOk(s', s'.requests[q]) {
      RequestStays(s, s', s.requests[q]);
    }
    forall p | p in s'.prunes ensures PruneOk(s', p) {
      NewestGrows(s.etcds[p.cluster], s'.etcds[p.cluster], p.key);
    }
  }

  // ----- Each kind of step keeps the invariant -----

  lemma SettleKeeps(s: State, id: nat, r: Option<Request>)
    requires Inv(s) && id in s.requests
    requires r.Some? ==> RequestOk(s, r.value)
    ensures Inv(Settle(s, id, r))
  {
    var s' := Settle(s, id, r);
    if r.Some? { RequestStays(s, s', r.value); }
    OthersStay(s, s', id);
  }

  lemma ReadKeeps(s: State, id: nat)
    requires Inv(s) && Enabled(s, Read(id))
    ensures Inv(Next(s, Read(id)))
  {
    var r := s.requests[id];
    var db := s.etcds[r.cluster];
    if Current(db, r.key).Some? {
      VersionAtItself(db.log, r.key, |db.log|);
    }
    SettleKeeps(s, id, ReadStep(db, r));
  }

  lemma ResolveKeeps(s: State, id: nat)
    requires Inv(s) && Enabled(s, Resolve(id))
    ensures Inv(Next(s, Resolve(id)))
  {
    SettleKeeps(s, id, ResolveStep(s.table, s.requests[id]));
  }

  lemma FetchKeeps(s: State, id: nat)
    requires Inv(s) && Enabled(s, Fetch(id))
    ensures Inv(Next(s, Fetch(id)))
  {
    var r := s.requests[id];
    SettleKeeps(s, id, FetchStep(s.etcds[r.cluster], r));
  }

  /** Inserting a version of the key is an evolution, after which it is held. */
  lemma InsertEvolves(s: State, s': State, r: Request, e: Entry, now: int)
    requires Faithful(s.etcds, s.table) && r.cluster in s.etcds && IsVersion(s.etcds[r.cluster], r.key, e)
    requires s'.etcds == s.etcds && s'.table == Insert(s.table, Snapshot(r.cluster, e, now))
    ensures Evolves(s, s') && Faithful(s'.etcds, s'.table) && Held(s', r, e)
  {
    assert e.key == r.key;
  }

  lemma InsertKeeps(s: State, id: nat, now: int)
    requires Inv(s) && Enabled(s, InsertSnapshot(id, now))
    ensures Inv(Next(s, InsertSnapshot(id, now)))
  {
    var r := s.requests[id];
    var s' := Next(s, InsertSnapshot(id, now));
    InsertEvolves(s, s', r, r.todo[0], now);
    InsertedOk(s, s', r);
    OthersStay(s, s', id);
  }

  lemma InsertedOk(s: State, s': State, r: Request)
    requires Evolves(s, s') && RequestOk(s, r) && r.pc.Inserting? && Held(s', r, r.todo[0])
    ensures RequestOk(s', r.(pc := Selecting(r.pc.keep)))
  {
    RequestStays(s, s', r);
  }

  lemma AdvanceKeeps(s: State, r: Request)
    requires RequestOk(s, r) && (r.pc.Selecting? || r.pc.Deleting?)
    ensures RequestOk(s, Advance(r))
  {
    var r' := Advance(r);
    assert forall i :: 0 <= i < |r'.todo| ==> r'.todo[i] == r.todo[i + 1];
    assert |r.todo| == 1 ==> r.todo[0] == r.current.value;
  }

  lemma SelectKeeps(s: State, id: nat)
    requires Inv(s) && Enabled(s, SelectCutoff(id))
    ensures Inv(Next(s, SelectCutoff(id)))
  {
    var r := s.requests[id];
    var revs := Revisions(s.table, r.cluster, r.key);
    if 1 <= r.pc.keep <= |revs| {
      StoredBelowNewest(s, r.cluster, r.key, CutoffOf(revs, r.pc.keep));
    } else {
      AdvanceKeeps(s, r);
    }
    SettleKeeps(s, id, Some(SelectStep(s.table, r, r.pc.keep)));
  }

  /** Deleting below a cutoff that is no newer than the newest write is an evolution. */
  lemma DeletionEvolves(s: State, s': State, cluster: string, key: Bytes, cut: int)
    requires Inv(s) && cluster in s.etcds && cut <= Newest(s.etcds[cluster], key)
    requires s'.etcds == s.etcds && s'.table == DeleteBelow(s.table, cluster, key, cut)
    ensures Evolves(s, s') && Faithful(s'.etcds, s'.table)
  {
  }

  lemma DeleteKeeps(s: State, id: nat)
    requires Inv(s) && Enabled(s, DeleteExpired(id))
    ensures Inv(Next(s, DeleteExpired(id)))
  {
    var r := s.requests[id];
    var s' := Next(s, DeleteExpired(id));
    DeletionEvolves(s, s', r.cluster, r.key, r.pc.cut);
    RequestStays(s, s', r);
    AdvanceKeeps(s', r);
    OthersStay(s, s', id);
  }

  lemma GrowthEvolves(s: State, s': State)
    requires Inv(s) && s'.etcds.Keys == s.etcds.Keys && s'.table == s.table
    requires forall c :: c in s.etcds ==> Grows(s.etcds[c], s'.etcds[c])
    ensures Evolves(s, s') && Faithful(s'.etcds, s'.table)
  {
    FaithfulGrows(s.etcds, s'.etcds, s.table);
  }

  lemma PlanKeeps(s: State, cluster: string, key: Bytes, keep: nat)
    requires Inv(s) && Enabled(s, PlanPrune(cluster, key, keep))
    ensures Inv(Next(s, PlanPrune(cluster, key, keep)))
  {
    StoredBelowNewest(s, cluster, key, CutoffOf(Revisions(s.table, cluster, key), keep));
    var s' := Next(s, PlanPrune(cluster, key, keep));
    forall id | id in s'.requests ensures RequestOk(s', s'.requests[id]) {
      RequestStays(s, s', s.requests[id]);
    }
  }

  lemma WriteKeeps(s: State, id: nat)
    requires Inv(s) && Enabled(s, Write(id))
    ensures Inv(Next(s, Write(id)))
  {
    var s' := Next(s, Write(id));
    GrowthEvolves(s, s');
    OthersStay(s, s', id);
  }

  lemma StoresGrowKeeps(s: State, s': State)
    requires Inv(s) && s'.etcds.Keys == s.etcds.Keys && s'.table == s.table
    requires forall c :: c in s.etcds ==> Grows(s.etcds[c], s'.etcds[c]) && s'.etcds[c].compacted <= |s'.etcds[c].log|
    requires s'.requests == s.requests && s'.nextId == s.nextId && s'.prunes == s.prunes
    ensures Inv(s')
  {
    GrowthEvolves(s, s');
    OthersStay(s, s', s.nextId);
  }

  lemma OutsideWriteKeeps(s: State, cluster: string, txn: Txn)
    requires Inv(s) && Enabled(s, OutsideWrite(cluster, txn))
    ensures Inv(Next(s, OutsideWrite(cluster, txn)))
  {
    StoresGrowKeeps(s, Next(s, OutsideWrite(cluster, txn)));
  }

  lemma CompactKeeps(s: State, cluster: string, at: nat)
    requires Inv(s) && Enabled(s, Compact(cluster, at))
    ensures Inv(Next(s, Compact(cluster, at)))
  {
    StoresGrowKeeps(s, Next(s, Compact(cluster, at)));
  }

  lemma SubmitKeeps(s: State, cluster: string, key: Bytes, kind: Kind, expected: Option<int>)
    requires Inv(s) && Enabled(s, Submit(cluster, key, kind, expected))
    ensures Inv(Next(s, Submit(cluster, key, kind, expected)))
  {
    var s' := Next(s, Submit(cluster, key, kind, expected));
    GrowthEvolves(s, s');
    OthersStay(s, s', s.nextId);
  }

  lemma ApplyKeeps(s: State, p: PendingPrune)
    requires Inv(s) && Enabled(s, ApplyPrune(p))
    ensures Inv(Next(s, ApplyPrune(p)))
  {
    var s' := Next(s, ApplyPrune(p));
    DeletionEvolves(s, s', p.cluster, p.key, p.cut);
    OthersStay(s, s', s.nextId);
  }

  /** Steps of the requests themselves. */
  predicate IsRequestStep(a: Action) {
    a.Read? || a.Resolve? || a.Fetch? || a.LoadRetention? || a.InsertSnapshot? || a.SelectCutoff? || a.DeleteExpired?
    || a.Write? || a.Abort?
  }

  lemma RequestStepKeeps(s: State, a: Action)
    requires Inv(s) && Enabled(s, a) && IsRequestStep(a)
    ensures Inv(Next(s, a))
  {
    match a
    case Read(id) => ReadKeeps(s, id);
    case Resolve(id) => ResolveKeeps(s, id);
    case Fetch(id) => FetchKeeps(s, id);
    case LoadRetention(id) => LoadKeeps(s, id);
    case InsertSnapshot(id, now) => InsertKeeps(s, id, now);
    case SelectCutoff(id) => SelectKeeps(s, id);
    case DeleteExpired(id) => DeleteKeeps(s, id);
    case Write(id) => WriteKeeps(s, id);
    case Abort(id) => SettleKeeps(s, id, None);
  }

  lemma LoadKeeps(s: State, id: nat)
    requires Inv(s) && Enabled(s, LoadRetention(id))
    ensures Inv(Next(s, LoadRetention(id)))
  {
    SettleKeeps(s, id, Some(s.requests[id].(pc := Inserting(s.retention))));
  }

  lemma StepKeeps(s: State, a: Action)
    requires Inv(s) && Enabled(s, a)
    ensures Inv(Next(s, a))
  {
    match a
    case Submit(cluster, key, kind, expected) => SubmitKeeps(s, cluster, key, kind, expected);
    case OutsideWrite(cluster, txn) => OutsideWriteKeeps(s, cluster, txn);
    case Compact(cluster, at) => CompactKeeps(s, cluster, at);
    case SetRetention(keep) => StoresGrowKeeps(s, Next(s, SetRetention(keep)));
    case PlanPrune(cluster, key, keep) => PlanKeeps(s, cluster, key, keep);
    case ApplyPrune(p) => ApplyKeeps(s, p);
    case _ => RequestStepKeeps(s, a);
  }

  lemma {:induction false} RunKeeps(states: seq<State>, actions: seq<Action>, i: nat)
    requires Run(states, actions) && i <= |actions|
    ensures Inv(states[i])
  {
    if i > 0 {
      RunKeeps(states, actions, i - 1);
      StepKeeps(states[i - 1], actions[i - 1]);
    }
  }

  // ----- Nothing is overwritten unarchived -----

  /** The next step of `id` is a guarded write that makes a revision and so replaces version `lost`. */
  ghost predicate Overwrites(s: State, id: nat, lost: Entry) {
    && Enabled(s, Write(id))
    && var r := s.requests[id];
       && r.expected.Some?
       && Next(s, Write(id)).etcds[r.cluster].log != s.etcds[r.cluster].log
       && Current(s.etcds[r.cluster], r.key) == Some(lost)
  }

  /** What a write does to its etcd: a guarded one makes a revision only over the expected one, and then exactly the
      write that was asked for; nothing else changes. */
  lemma WriteIsGuarded(states: seq<State>, actions: seq<Action>, i: nat, id: nat)
    requires Run(states, actions) && i < |actions| && actions[i] == Write(id)
    ensures var s, s' := states[i], states[i + 1];
            var r := s.requests[id];
            var db, db' := s.etcds[r.cluster], s'.etcds[r.cluster];
            var matches := r.expected.None? || ModRevision(db, r.key) == r.expected.value;
            && (db'.log != db.log ==> matches)
            && (!matches ==> s'.etcds == s.etcds)
            && (matches && r.kind.PutKey? ==> db'.log == db.log + [map[r.key := Put(r.kind.value, 0)]])
            && (matches && r.kind.DeleteKey? && Current(db, r.key).Some? ==> db'.log == db.log + [map[r.key := Delete]])
            && (r.kind.DeleteKey? && Current(db, r.key).None? ==> db'.log == db.log)
            && (matches && r.kind.RollbackKey? ==>
                  && 1 <= r.kind.target <= |db.log| && EntryAt(db.log, r.key, r.kind.target).Some?
                  && EntryAt(db.log, r.key, r.kind.target).value.modRevision == r.kind.target
                  && db'.log == db.log + [map[r.key := Put(EntryAt(db.log, r.key, r.kind.target).value.value, 0)]])
            && db'.compacted == db.compacted
            && s' == s.(etcds := s.etcds[r.cluster := db'], requests := s.requests - {id})
  {
    RunKeeps(states, actions, i);
    assert RequestOk(states[i], states[i].requests[id]);
    assert states[i].etcds[states[i].requests[id].cluster := states[i].etcds[states[i].requests[id].cluster]] == states[i].etcds;
  }

  /** Storage holds exactly version `lost` of the key of request `r`. */
  ghost predicate Archived(t: Table, r: Request, lost: Entry) {
    var id := SnapId(r.cluster, r.key, lost.modRevision);
    id in t && t[id].cluster == r.cluster && t[id].entry == lost
  }

  /** The request read a version, or its expected revision already existed when it read. */
  predicate InformedExpectation(r: Request) {
    r.current.Some? || (r.expected.Some? && r.expected.value <= r.readAt)
  }

  /** A request that read a version and whose write is accepted replaces exactly that version. */
  lemma ReplacesWhatItRead(s: State, id: nat, lost: Entry)
    requires Inv(s) && Overwrites(s, id, lost) && s.requests[id].current.Some?
    ensures s.requests[id].current == Some(lost) && Newest(s.etcds[s.requests[id].cluster], s.requests[id].key) == lost.modRevision
  {
    var r := s.requests[id];
    assert RequestOk(s, r);
    var db := s.etcds[r.cluster];
    VersionAtItself(db.log, r.key, |db.log|);
    VisibleIsLastWrite(db.log, r.key, |db.log|);
  }

  lemma OverwriteIsArchived(s: State, id: nat, lost: Entry)
    requires Inv(s) && Overwrites(s, id, lost) && InformedExpectation(s.requests[id])
    ensures Archived(s.table, s.requests[id], lost)
  {
    var r := s.requests[id];
    assert RequestOk(s, r);
    if r.current.Some? {
      ReplacesWhatItRead(s, id, lost);
      assert Held(s, r, lost);
    }
  }

  /** In every run, whatever a guarded put, delete or rollback replaces is in storage at that moment.
      Only a put can fail to be informed: a delete or rollback that reads no version ends there. */
  lemma ArchiveBeforeOverwrite(states: seq<State>, actions: seq<Action>, i: nat, id: nat, lost: Entry)
    requires Run(states, actions) && i < |actions| && actions[i] == Write(id)
    requires Overwrites(states[i], id, lost)
    requires states[i].requests[id].kind.PutKey? ==> InformedExpectation(states[i].requests[id])
    ensures Archived(states[i].table, states[i].requests[id], lost)
    ensures states[i + 1].table == states[i].table
    ensures Newest(states[i + 1].etcds[states[i].requests[id].cluster], states[i].requests[id].key) > lost.modRevision
  {
    RunKeeps(states, actions, i);
    var r := states[i].requests[id];
    assert InformedExpectation(r);
    OverwriteIsArchived(states[i], id, lost);
  }

  /** A rollback that commits replaces exactly the expected version by exactly the target's value. */
  lemma RollbackRestoresTarget(states: seq<State>, actions: seq<Action>, i: nat, id: nat, lost: Entry)
    requires Run(states, actions) && i < |actions| && actions[i] == Write(id)
    requires Overwrites(states[i], id, lost) && states[i].requests[id].kind.RollbackKey?
    ensures var r := states[i].requests[id];
            var db, db' := states[i].etcds[r.cluster], states[i + 1].etcds[r.cluster];
            && 1 <= r.kind.target < lost.modRevision
            && r.expected == Some(lost.modRevision)
            && EntryAt(db.log, r.key, r.kind.target).Some?
            && EntryAt(db.log, r.key, r.kind.target).value.modRevision == r.kind.target
            && Current(db', r.key) == Some(Entry(r.key, EntryAt(db.log, r.key, r.kind.target).value.value,
                                                 lost.createRevision, |db.log| + 1, lost.version + 1, 0))
  {
    RunKeeps(states, actions, i);
    var r := states[i].requests[id];
    assert RequestOk(states[i], r);
    ReplacesWhatItRead(states[i], id, lost);
    PutReplaces(states[i].etcds[r.cluster], r.key, Payload(r).value, lost);
  }

  lemma PutReplaces(db: Etcd, key: Bytes, value: Bytes, lost: Entry)
    requires Current(db, key) == Some(lost)
    ensures Current(Append(db, map[key := Put(value, 0)]), key) ==
      Some(Entry(key, value, lost.createRevision, |db.log| + 1, lost.version + 1, 0))
  {
    var txn: Txn := map[key := Put(value, 0)];
    PastIsFixed(db.log, [txn], key, |db.log|);
  }

  // ----- The one hole: a put whose expected revision lies in the future -----

  ghost predicate Executes(s: State, acts: seq<Action>)
    decreases |acts|
  {
    acts == [] || (Enabled(s, acts[0]) && Executes(Next(s, acts[0]), acts[1..]))
  }

  ghost function Final(s: State, acts: seq<Action>): State
    requires Executes(s, acts)
    decreases |acts|
  {
    if acts == [] then s else Final(Next(s, acts[0]), acts[1..])
  }

  /** However the run goes on after the read of `id`, its write never replaces an unarchived version. */
  ghost predicate SafeAfterRead(s: State, id: nat)
    requires Enabled(s, Read(id))
  {
    forall acts, lost ::
      Executes(Next(s, Read(id)), acts) && Overwrites(Final(Next(s, Read(id)), acts), id, lost) ==>
        Archived(Final(Next(s, Read(id)), acts).table, Final(Next(s, Read(id)), acts).requests[id], lost)
  }

  /** What a request learned by reading does not change while it is in flight. */
  ghost predicate Learned(s: State, id: nat, seen: bool, readAt: nat, expected: Option<int>) {
    && id < s.nextId
    && (id in s.requests ==>
          var r := s.requests[id];
          !r.pc.Reading? && r.current.Some? == seen && r.readAt == readAt && r.expected == expected)
  }

  lemma LearnedStep(s: State, a: Action, id: nat, seen: bool, readAt: nat, expected: Option<int>)
    requires Enabled(s, a) && Learned(s, id, seen, readAt, expected)
    ensures Learned(Next(s, a), id, seen, readAt, expected)
  {
    match a
    case Submit(_, _, _, _) =>
    case Resolve(_) =>
    case Fetch(_) =>
    case SelectCutoff(_) =>
    case _ =>
  }

  lemma {:induction false} LearnedStays(s: State, acts: seq<Action>, id: nat, seen: bool, readAt: nat, expected: Option<int>)
    requires Inv(s) && Executes(s, acts) && Learned(s, id, seen, readAt, expected)
    ensures Inv(Final(s, acts)) && Learned(Final(s, acts), id, seen, readAt, expected)
    decreases |acts|
  {
    if acts != [] {
      StepKeeps(s, acts[0]);
      LearnedStep(s, acts[0], id, seen, readAt, expected);
      LearnedStays(Next(s, acts[0]), acts[1..], id, seen, readAt, expected);
    }
  }

  lemma {:induction false} FillLog(s: State, cluster: string, key: Bytes, n: nat) returns (acts: seq<Action>, db: Etcd)
    requires cluster in s.etcds && Current(s.etcds[cluster], key).None?
    ensures |db.log| == |s.etcds[cluster].log| + n && Current(db, key).None?
    ensures Executes(s, acts) && Final(s, acts) == s.(etcds := s.etcds[cluster := db])
    decreases n
  {
    if n == 0 {
      acts, db := [], s.etcds[cluster];
      assert s.etcds == s.etcds[cluster := db];
    } else {
      var filler := OutsideWrite(cluster, map[key + [0] := Put([], 0)]);
      assert key + [0] in filler.txn;
      var s' := Next(s, filler);
      PastIsFixed(s.etcds[cluster].log, [filler.txn], key, |s.etcds[cluster].log|);
      var rest;
      rest, db := FillLog(s', cluster, key, n - 1);
      acts := [filler] + rest;
      assert acts[1..] == rest;
      assert s.etcds[cluster := db] == s'.etcds[cluster := db];
    }
  }

  lemma {:induction false} ExecutesOneMore(s: State, acts: seq<Action>, a: Action)
    requires Executes(s, acts) && Enabled(Final(s, acts), a)
    ensures Executes(s, acts + [a]) && Final(s, acts + [a]) == Next(Final(s, acts), a)
    decreases |acts|
  {
    if acts == [] {
      assert acts + [a] == [a];
      assert [a][1..] == [];
    } else {
      ExecutesOneMore(Next(s, acts[0]), acts[1..], a);
      assert (acts + [a])[1..] == acts[1..] + [a];
    }
  }

  lemma Intrusion(db: Etcd, key: Bytes) returns (written: Entry)
    requires Current(db, key).None?
    ensures Current(Append(db, map[key := Put([], 0)]), key) == Some(written) && written.modRevision == |db.log| + 1
  {
    var txn := map[key := Put([], 0)];
    assert key in txn;
    PastIsFixed(db.log, [txn], key, |db.log|);
    written := Current(Append(db, txn), key).value;
  }

  /** Outside writers can make any revision still to come the one that writes an absent key. */
  lemma WrittenAt(s: State, cluster: string, key: Bytes, revision: int)
    returns (acts: seq<Action>, db: Etcd, written: Entry)
    requires cluster in s.etcds && Current(s.etcds[cluster], key).None? && revision > |s.etcds[cluster].log|
    ensures Executes(s, acts) && Final(s, acts) == s.(etcds := s.etcds[cluster := db])
    ensures Current(db, key) == Some(written) && written.modRevision == revision
  {
    var fill, filled := FillLog(s, cluster, key, revision - 1 - |s.etcds[cluster].log|);
    var intruder := OutsideWrite(cluster, map[key := Put([], 0)]);
    assert key in intruder.txn;
    ExecutesOneMore(s, fill, intruder);
    acts := fill + [intruder];
    written := Intrusion(filled, key);
    db := Append(filled, intruder.txn);
  }

  /** A put that reads no version and expects a revision still to come can replace that revision unarchived. */
  lemma FutureExpectationLosesData(s: State, id: nat) returns (acts: seq<Action>, lost: Entry)
    requires Inv(s) && Enabled(s, Read(id)) && s.requests[id].kind.PutKey? && s.requests[id].expected.Some?
    requires Current(s.etcds[s.requests[id].cluster], s.requests[id].key).None?
    requires s.requests[id].expected.value > |s.etcds[s.requests[id].cluster].log|
    ensures var s1 := Next(s, Read(id));
            && Executes(s1, acts)
            && Overwrites(Final(s1, acts), id, lost)
            && !Archived(Final(s1, acts).table, Final(s1, acts).requests[id], lost)
  {
    var r := s.requests[id];
    var s1 := Next(s, Read(id));
    var db;
    acts, db, lost := WrittenAt(s1, r.cluster, r.key, r.expected.value);
    assert SnapId(r.cluster, r.key, lost.modRevision) !in s.table;
  }

  /** A guarded put is safe from its read onwards exactly when it read a version or its expected
      revision is not above the store revision at that read. */
  lemma PutIsSafeIff(s: State, id: nat)
    requires Inv(s) && Enabled(s, Read(id)) && s.requests[id].kind.PutKey? && s.requests[id].expected.Some?
    ensures SafeAfterRead(s, id) <==>
              var r := s.requests[id];
              var db := s.etcds[r.cluster];
              Current(db, r.key).Some? || r.expected.value <= |db.log|
  {
    var r := s.requests[id];
    var db := s.etcds[r.cluster];
    var s1 := Next(s, Read(id));
    StepKeeps(s, Read(id));
    if Current(db, r.key).Some? || r.expected.value <= |db.log| {
      forall acts, lost | Executes(s1, acts) && Overwrites(Final(s1, acts), id, lost)
        ensures Archived(Final(s1, acts).table, Final(s1, acts).requests[id], lost)
      {
        LearnedStays(s1, acts, id, Current(db, r.key).Some?, |db.log|, r.expected);
        OverwriteIsArchived(Final(s1, acts), id, lost);
      }
    } else {
      var acts, lost := FutureExpectationLosesData(s, id);
    }
  }
}
