/** The archive-before-overwrite protocol of internal/app/server.go as a state machine.

    Each request is a sequence of atomic steps (read, look up, fetch, then for every archived entry:
    read the retention, insert, select a cutoff, delete below it; finally the conditional write).
    Steps of any number of requests interleave with each other, with outside etcd writers, with
    compaction, with retention changes and with prunes started elsewhere. A request may be abandoned
    at any point (error, timeout, crash). The file backend runs select and delete without
    interleaving, so its behaviours are among the ones modelled. */
module Archive {
  import opened Store
  import opened Mvcc
  import opened History

  datatype Kind = PutKey(value: Bytes) | DeleteKey | RollbackKey(target: int)

  datatype Pc =
    | Reading                 // about to read the current version
    | Resolving               // rollback: about to look the target up in storage
    | Fetching                // rollback: about to read the target from etcd
    | Saving                  // about to read the retention for todo[0]
    | Inserting(keep: nat)    // about to insert todo[0]
    | Selecting(keep: nat)    // about to select the cutoff
    | Deleting(cut: int)      // about to delete below the cutoff
    | Writing                 // about to send the write

  datatype Request = Request(
    cluster: string, key: Bytes, kind: Kind, expected: Option<int>,
    pc: Pc, current: Option<Entry>, readAt: nat, previous: Option<Entry>, todo: seq<Entry>)

  datatype PendingPrune = PendingPrune(cluster: string, key: Bytes, cut: int)

  /** A cluster identifier names one etcd. */
  datatype State = State(
    etcds: map<string, Etcd>, table: Table, retention: nat,
    requests: map<nat, Request>, nextId: nat, prunes: set<PendingPrune>)

  datatype Action =
    | Submit(cluster: string, key: Bytes, kind: Kind, expected: Option<int>)
    | Read(id: nat)
    | Resolve(id: nat)
    | Fetch(id: nat)
    | LoadRetention(id: nat)
    | InsertSnapshot(id: nat, now: int)
    | SelectCutoff(id: nat)
    | DeleteExpired(id: nat)
    | Write(id: nat)
    | Abort(id: nat)
    | OutsideWrite(cluster: string, txn: Txn)
    | Compact(cluster: string, at: nat)
    | SetRetention(keep: nat)
    | PlanPrune(cluster: string, key: Bytes, keep: nat)
    | ApplyPrune(prune: PendingPrune)

  // ----- Steps of one request; None means that it answers and is gone -----

  /** archiveCurrent for put and delete, the head of rollbackTarget for rollback. */
  function ReadStep(db: Etcd, r: Request): Option<Request> {
    var current := Current(db, r.key);
    var r' := r.(current := current, readAt := |db.log|);
    match r.kind
    case RollbackKey(target) =>
      if current.None? || r.expected != Some(current.value.modRevision)
         || target < 1 || target >= current.value.modRevision then None
      else Some(r'.(pc := Resolving))
    case _ =>
      if current.Some? && r.expected.Some? && current.value.modRevision != r.expected.value then None
      else if current.Some? then Some(r'.(pc := Saving, todo := [current.value]))
      else if r.kind.DeleteKey? then None
      else Some(r'.(pc := Writing))
  }

  function ResolveStep(t: Table, r: Request): Option<Request>
    requires r.kind.RollbackKey? && r.current.Some?
  {
    var id := SnapId(r.cluster, r.key, r.kind.target);
    if id in t then Some(r.(pc := Saving, previous := Some(t[id].entry), todo := [r.current.value]))
    else Some(r.(pc := Fetching))
  }

  function FetchStep(db: Etcd, r: Request): Option<Request>
    requires r.kind.RollbackKey? && r.current.Some?
  {
    match GetAtRevision(db, r.key, r.kind.target)
    case Err(_) => None
    case Ok(None) => None
    case Ok(Some(e)) =>
      if e.modRevision != r.kind.target then None
      else Some(r.(pc := Saving, previous := Some(e), todo := [e, r.current.value]))
  }

  /** One snapshot is saved and pruned: go on with the next one or write. */
  function Advance(r: Request): Request
    requires r.todo != []
  {
    r.(todo := r.todo[1..], pc := if |r.todo| == 1 then Writing else Saving)
  }

  ghost function SelectStep(t: Table, r: Request, keep: nat): Request
    requires r.todo != []
  {
    var revs := Revisions(t, r.cluster, r.key);
    if 1 <= keep <= |revs| then r.(pc := Deleting(CutoffOf(revs, keep))) else Advance(r)
  }

  function Guard(r: Request): Option<int> {
    if r.kind.RollbackKey? && r.current.Some? then Some(r.current.value.modRevision) else r.expected
  }

  function Payload(r: Request): Op {
    match r.kind
    case PutKey(value) => Put(value, 0)
    case DeleteKey => Delete
    case RollbackKey(_) => Put(if r.previous.Some? then r.previous.value.value else [], 0)
  }

  /** The conditional write; a refused one changes nothing, and deleting an absent key makes no revision. */
  function WriteStep(db: Etcd, r: Request): Etcd {
    if !Accepts(db, r.key, Guard(r)) then db
    else if r.kind.DeleteKey? && Current(db, r.key).None? then db
    else Append(db, map[r.key := Payload(r)])
  }

  // ----- The machine -----

  predicate At(s: State, id: nat) { id in s.requests && s.requests[id].cluster in s.etcds }

  predicate ValidSubmit(kind: Kind, expected: Option<int>) {
    kind.RollbackKey? ==> expected.Some? && 1 <= kind.target < expected.value
  }

  ghost predicate Enabled(s: State, a: Action) {
    match a
    case Submit(cluster, key, kind, expected) => cluster in s.etcds && ValidSubmit(kind, expected)
    case Read(id) => At(s, id) && s.requests[id].pc.Reading?
    case Resolve(id) => At(s, id) && s.requests[id].pc.Resolving?
                        && s.requests[id].kind.RollbackKey? && s.requests[id].current.Some?
    case Fetch(id) => At(s, id) && s.requests[id].pc.Fetching?
                      && s.requests[id].kind.RollbackKey? && s.requests[id].current.Some?
    case LoadRetention(id) => At(s, id) && s.requests[id].pc.Saving?
    case InsertSnapshot(id, _) => At(s, id) && s.requests[id].pc.Inserting? && s.requests[id].todo != []
    case SelectCutoff(id) => At(s, id) && s.requests[id].pc.Selecting? && s.requests[id].todo != []
    case DeleteExpired(id) => At(s, id) && s.requests[id].pc.Deleting? && s.requests[id].todo != []
    case Write(id) => At(s, id) && s.requests[id].pc.Writing?
    case Abort(id) => id in s.requests
    case OutsideWrite(cluster, txn) => cluster in s.etcds && txn != map[]
    case Compact(cluster, at) => cluster in s.etcds && s.etcds[cluster].compacted <= at <= |s.etcds[cluster].log|
    case SetRetention(_) => true
    case PlanPrune(cluster, key, keep) => 1 <= keep <= |Revisions(s.table, cluster, key)|
    case ApplyPrune(p) => p in s.prunes
  }

  function Settle(s: State, id: nat, r: Option<Request>): State {
    s.(requests := match r case None => s.requests - {id} case Some(q) => s.requests[id := q])
  }

  ghost function Next(s: State, a: Action): State
    requires Enabled(s, a)
  {
    match a
    case Submit(cluster, key, kind, expected) =>
      var r := Request(cluster, key, kind, expected, Reading, None, 0, None, []);
      s.(requests := s.requests[s.nextId := r], nextId := s.nextId + 1)
    case Read(id) => var r := s.requests[id]; Settle(s, id, ReadStep(s.etcds[r.cluster], r))
    case Resolve(id) => Settle(s, id, ResolveStep(s.table, s.requests[id]))
    case Fetch(id) => var r := s.requests[id]; Settle(s, id, FetchStep(s.etcds[r.cluster], r))
    case LoadRetention(id) => Settle(s, id, Some(s.requests[id].(pc := Inserting(s.retention))))
    case InsertSnapshot(id, now) =>
      var r := s.requests[id];
      Settle(s, id, Some(r.(pc := Selecting(r.pc.keep)))).(table := Insert(s.table, Snapshot(r.cluster, r.todo[0], now)))
    case SelectCutoff(id) => Settle(s, id, Some(SelectStep(s.table, s.requests[id], s.requests[id].pc.keep)))
    case DeleteExpired(id) =>
      var r := s.requests[id];
      Settle(s, id, Some(Advance(r))).(table := DeleteBelow(s.table, r.cluster, r.key, r.pc.cut))
    case Write(id) =>
      var r := s.requests[id];
      Settle(s, id, None).(etcds := s.etcds[r.cluster := WriteStep(s.etcds[r.cluster], r)])
    case Abort(id) => Settle(s, id, None)
    case OutsideWrite(cluster, txn) => s.(etcds := s.etcds[cluster := Append(s.etcds[cluster], txn)])
    case Compact(cluster, at) => s.(etcds := s.etcds[cluster := s.etcds[cluster].(compacted := at)])
    case SetRetention(keep) => s.(retention := keep)
    case PlanPrune(cluster, key, keep) =>
      s.(prunes := s.prunes + {PendingPrune(cluster, key, CutoffOf(Revisions(s.table, cluster, key), keep))})
    case ApplyPrune(p) => s.(table := DeleteBelow(s.table, p.cluster, p.key, p.cut), prunes := s.prunes - {p})
  }

  /** Any etcd contents, empty storage, nothing in flight. */
  predicate Init(s: State) {
    && (forall c :: c in s.etcds ==> s.etcds[c].compacted <= |s.etcds[c].log|)
    && s.table == map[] && s.requests == map[] && s.prunes == {}
  }

  /** A run: every state but the first follows from the one before it by an enabled action. */
  ghost predicate Run(states: seq<State>, actions: seq<Action>) {
    && |states| == |actions| + 1
    && Init(states[0])
    && forall i :: 0 <= i < |actions| ==> Enabled(states[i], actions[i]) && states[i + 1] == Next(states[i], actions[i])
  }

  // ----- Invariant -----

  function Newest(db: Etcd, key: Bytes): nat {
    LastWrite(db.log, key, |db.log|)
  }

  /** Every stored snapshot is a version of its key in its etcd. */
  ghost predicate Faithful(etcds: map<string, Etcd>, t: Table) {
    forall id :: id in t ==>
      IdOf(t[id]) == id && id.cluster in etcds && IsVersion(etcds[id.cluster], id.key, t[id].entry)
  }

  /** Stored, or no longer the newest write of its key. */
  ghost predicate Held(s: State, r: Request, e: Entry)
    requires r.cluster in s.etcds
  {
    var id := SnapId(r.cluster, r.key, e.modRevision);
    (id in s.table && s.table[id].entry == e) || Newest(s.etcds[r.cluster], r.key) > e.modRevision
  }

  ghost predicate Versions(db: Etcd, r: Request) {
    && (r.current.Some? ==> IsVersion(db, r.key, r.current.value))
    && (r.previous.Some? ==> IsVersion(db, r.key, r.previous.value))
    && (r.kind.RollbackKey? && r.previous.Some? ==> r.previous.value.modRevision == r.kind.target)
    && (forall i :: 0 <= i < |r.todo| ==> IsVersion(db, r.key, r.todo[i]))
  }

  /** What the program counter promises apart from the stores. */
  ghost predicate Shape(r: Request) {
    && (r.current.Some? && r.expected.Some? ==> r.current.value.modRevision == r.expected.value)
    && (r.current.Some? && r.kind.RollbackKey? ==> 1 <= r.kind.target < r.current.value.modRevision)
    && (r.kind.RollbackKey? ==> r.expected.Some?)
    && match r.pc
       case Reading => r.current.None? && r.previous.None? && r.todo == []
       case Resolving => r.kind.RollbackKey? && r.current.Some? && r.todo == []
       case Fetching => r.kind.RollbackKey? && r.current.Some? && r.todo == []
       case Writing => (r.current.None? ==> r.kind.PutKey?) && (r.kind.RollbackKey? ==> r.previous.Some?)
       case _ => r.current.Some? && r.todo != [] && r.todo[|r.todo| - 1] == r.current.value
                 && (r.kind.RollbackKey? ==> r.previous.Some?)
  }

  ghost predicate Progress(s: State, r: Request)
    requires r.cluster in s.etcds && Shape(r)
  {
    var db := s.etcds[r.cluster];
    match r.pc
    case Selecting(_) => Held(s, r, r.todo[0])
    case Deleting(cut) => Held(s, r, r.todo[0]) && cut <= Newest(db, r.key)
    case Writing =>
      if r.current.Some? then Held(s, r, r.current.value)
      else r.readAt <= |db.log| && (Current(db, r.key).Some? ==> ModRevision(db, r.key) > r.readAt)
    case _ => true
  }

  ghost predicate RequestOk(s: State, r: Request) {
    r.cluster in s.etcds && Versions(s.etcds[r.cluster], r) && Shape(r) && Progress(s, r)
  }

  ghost predicate PruneOk(s: State, p: PendingPrune) {
    p.cluster in s.etcds && p.cut <= Newest(s.etcds[p.cluster], p.key)
  }

  ghost predicate Inv(s: State) {
    && (forall c :: c in s.etcds ==> s.etcds[c].compacted <= |s.etcds[c].log|)
    && Faithful(s.etcds, s.table)
    && (forall id :: id in s.requests ==> id < s.nextId && RequestOk(s, s.requests[id]))
    && (forall p :: p in s.prunes ==> PruneOk(s, p))
  }
}
