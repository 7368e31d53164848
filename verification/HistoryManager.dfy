/** HistoryManager (internal/store/history_manager.go): delegates to the backend and applies the retention. */
module HistoryManager {
  import opened Store
  import opened History
  import opened HistoryFile
  import opened HistoryLog
  import opened HistoryDisk
  import opened FileBackend
  import Retention

  /** Saving a record that fits leaves only records that fit. */
  lemma SavedFit(c: Codec, d: Disk, t: Table, s: Snapshot)
    requires Represents(d.index, t) && EntriesFit(c, d.index.entries) && Allowed(c, d, SaveOp(s))
    ensures EntriesFit(c, Complete(c, d, SaveOp(s)).index.entries)
  {
  }

  class Manager {
    var backend: FileHistory?
    var retention: nat

    ghost predicate Valid()
      reads this, backend
    {
      Retention.ValidRetention(retention) && (backend != null ==> backend.Valid() && backend.isOpen)
    }

    ghost function Abstract(): Retention.State
      requires backend != null
      reads this, backend
    {
      Retention.State(backend.table, retention)
    }

    constructor (b: FileHistory?, persisted: Option<int>)
      requires b != null ==> b.Valid() && b.isOpen
      requires persisted.Some? ==> Retention.ValidRetention(persisted.value)
      ensures Valid() && backend == b
      ensures retention == if persisted.Some? then persisted.value else Retention.DEFAULT_RETENTION
    {
      backend := b;
      retention := if persisted.Some? then persisted.value else Retention.DEFAULT_RETENTION;
    }

    /** The backend refuses the snapshot itself. */
    ghost predicate Refuses(s: Snapshot, written: bool)
      requires backend != null
      reads this, backend
    {
      !ValidSnapshot(s) || (IdOf(s) !in backend.table && (|Line(backend.codec, s)| > MAX_RECORD || !written))
    }

    /** Save and prune that key to the retention read before. A prune that fails leaves the snapshot stored. */
    method Save(s: Snapshot, written: bool, renamed: bool, closed: bool) returns (r: Result<(), StoreError>)
      requires Valid()
      modifies backend
      ensures Valid() && backend == old(backend) && retention == old(retention)
      ensures backend == null ==> r == Err(NotSetup)
      ensures backend != null && Applied(r) ==>
        !old(Refuses(s, written)) && Abstract() == Retention.Do(old(Abstract()), Retention.Save(s))
      ensures backend != null && !Applied(r) ==>
        backend.table == if old(Refuses(s, written)) then old(backend.table) else Insert(old(backend.table), s)
      ensures (backend != null && !old(Refuses(s, written)) && renamed && closed
               && EntriesFit(backend.codec, old(backend.entries))) ==> r.Ok?
    {
      if backend == null { return Err(NotSetup); }
      r := backend.Save(s, written);
      if r.Err? { return; }
      if EntriesFit(backend.codec, old(backend.entries)) {
        SavedFit(backend.codec, old(backend.Now()), old(backend.table), s);
        FittingIsAllowed(backend.codec, backend.Now(), backend.table, PruneKeyOp(s.cluster, s.entry.key, retention));
      }
      r := backend.PruneKey(s.cluster, s.entry.key, retention, renamed, closed);
    }

    /** Persist the new retention, then prune everything to it. Once persisted the retention stands, even if the
        prune fails. */
    method UpdateRetention(keep: int, cancelled: bool, persisted: bool, renamed: bool, closed: bool)
      returns (r: Result<(), StoreError>)
      requires Valid()
      modifies this, backend
      ensures Valid() && backend == old(backend)
      ensures !Retention.ValidRetention(keep) ==> r == Err(InvalidRetention)
      ensures Retention.ValidRetention(keep) && cancelled ==> r == Err(Cancelled)
      ensures Retention.ValidRetention(keep) && !cancelled && backend == null ==> r == Err(NotSetup)
      ensures Retention.ValidRetention(keep) && !cancelled && backend != null && !persisted ==> r == Err(ConfigNotSaved)
      ensures retention == if Retention.ValidRetention(keep) && !cancelled && backend != null && persisted
                           then keep else old(retention)
      ensures backend != null && Applied(r) ==>
        keep >= 0 && Abstract() == Retention.Do(old(Abstract()), Retention.Retain(keep))
      ensures backend != null && !Applied(r) ==> backend.Now() == old(backend.Now()) && backend.table == old(backend.table)
      ensures (backend != null && Retention.ValidRetention(keep) && !cancelled && persisted && renamed && closed
               && EntriesFit(backend.codec, old(backend.entries))) ==> r.Ok?
    {
      if !Retention.ValidRetention(keep) { return Err(InvalidRetention); }
      if cancelled { return Err(Cancelled); }
      if backend == null { return Err(NotSetup); }
      if !persisted { return Err(ConfigNotSaved); }
      retention := keep;
      if EntriesFit(backend.codec, backend.entries) {
        FittingIsAllowed(backend.codec, backend.Now(), backend.table, PruneOp(keep));
      }
      r := backend.Prune(keep, renamed, closed);
    }

    /** Loading a stored configuration: the retention is checked (the first configuration version had none), the
        backend is pruned to it, and nothing is set up when that fails. */
    method Load(b: FileHistory, version: int, stored: int, renamed: bool, closed: bool) returns (r: Result<(), StoreError>)
      requires Valid() && backend == null && b.Valid() && b.isOpen
      modifies this, b
      ensures Valid()
      ensures var keep := if version == 1 then Retention.DEFAULT_RETENTION else stored;
        && (r.Ok? ==> version in {1, 2} && Retention.ValidRetention(keep) && backend == b && retention == keep
                      && Abstract() == Retention.Start(old(b.table), keep))
        && (version !in {1, 2} ==> r == Err(CorruptFile))
        && (version in {1, 2} && !Retention.ValidRetention(keep) ==> r == Err(InvalidRetention))
      ensures r.Err? ==> backend == null
      ensures var keep := if version == 1 then Retention.DEFAULT_RETENTION else stored;
        version in {1, 2} && Retention.ValidRetention(keep) && renamed && closed && EntriesFit(b.codec, old(b.entries)) ==> r.Ok?
    {
      if version !in {1, 2} { return Err(CorruptFile); }
      var keep := if version == 1 then Retention.DEFAULT_RETENTION else stored;
      if !Retention.ValidRetention(keep) { return Err(InvalidRetention); }
      retention, backend := keep, b;
      if EntriesFit(b.codec, b.entries) {
        FittingIsAllowed(b.codec, b.Now(), b.table, PruneOp(keep));
      }
      r := b.Prune(keep, renamed, closed);
      if r.Err? { backend := null; }
    }
  }
}
