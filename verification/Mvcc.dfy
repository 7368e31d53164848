/** etcd as the program sees it through internal/store/etcd.go: a log of transactions numbered by a
    strictly increasing revision, reads at the current or at a past revision, and a compaction
    revision below which reads fail. */
module Mvcc {
  import opened Store

  datatype Op = Put(value: Bytes, lease: int) | Delete

  /** The writes of one transaction; etcd writes a key at most once per transaction. */
  type Txn = map<Bytes, Op>

  /** `log[r - 1]` holds the writes of revision `r`; the current revision is `|log|`. */
  datatype Etcd = Etcd(log: seq<Txn>, compacted: nat)

  /** The version of `key` visible at revision `r`. */
  function EntryAt(log: seq<Txn>, key: Bytes, r: nat): (e: Option<Entry>)
    requires r <= |log|
    ensures e.Some? ==> e.value.key == key && 1 <= e.value.createRevision <= e.value.modRevision <= r
    ensures e.Some? ==> 1 <= e.value.version
  {
    if r == 0 then None
    else if key !in log[r - 1] then EntryAt(log, key, r - 1)
    else match log[r - 1][key]
      case Delete => None
      case Put(value, lease) =>
        match EntryAt(log, key, r - 1)
        case None => Some(Entry(key, value, r, r, 1, lease))
        case Some(prior) => Some(Entry(key, value, prior.createRevision, r, prior.version + 1, lease))
  }

  /** The revision of the last write to `key` up to `r`, a deletion included; 0 if there is none. */
  function LastWrite(log: seq<Txn>, key: Bytes, r: nat): (w: nat)
    requires r <= |log|
    ensures w <= r
    ensures w > 0 ==> key in log[w - 1]
    ensures forall i :: w <= i < r ==> key !in log[i]
  {
    if r == 0 then 0 else if key in log[r - 1] then r else LastWrite(log, key, r - 1)
  }

  function Current(db: Etcd, key: Bytes): Option<Entry> {
    EntryAt(db.log, key, |db.log|)
  }

  /** The modification revision a transaction compares against: 0 for an absent key. */
  function ModRevision(db: Etcd, key: Bytes): (m: nat)
    ensures m <= |db.log|
  {
    match Current(db, key) case None => 0 case Some(e) => e.modRevision
  }

  function Append(db: Etcd, txn: Txn): Etcd {
    db.(log := db.log + [txn])
  }

  function GetAtRevision(db: Etcd, key: Bytes, r: int): Result<Option<Entry>, StoreError> {
    if r < 1 then Err(NoPreviousVersion)
    else if r > |db.log| then Err(FutureRevision)
    else if r < db.compacted then Err(Compacted)
    else Ok(EntryAt(db.log, key, r))
  }

  /** A write is conditional on the expected modification revision when one is given. */
  predicate Accepts(db: Etcd, key: Bytes, expected: Option<int>) {
    expected.None? || ModRevision(db, key) == expected.value
  }

  /** `e` is the version of `key` written at its own revision. */
  ghost predicate IsVersion(db: Etcd, key: Bytes, e: Entry) {
    1 <= e.modRevision <= |db.log| && EntryAt(db.log, key, e.modRevision) == Some(e)
  }

  // ----- What later transactions cannot change -----

  lemma {:induction false} PastIsFixed(log: seq<Txn>, more: seq<Txn>, key: Bytes, r: nat)
    requires r <= |log|
    ensures EntryAt(log + more, key, r) == EntryAt(log, key, r)
    ensures LastWrite(log + more, key, r) == LastWrite(log, key, r)
  {
    if r > 0 {
      assert (log + more)[r - 1] == log[r - 1];
      PastIsFixed(log, more, key, r - 1);
    }
  }

  /** The visible version is the one of the last write, and it is absent exactly when that write deleted the key. */
  lemma {:induction false} VisibleIsLastWrite(log: seq<Txn>, key: Bytes, r: nat)
    requires r <= |log|
    ensures var w := LastWrite(log, key, r);
            && EntryAt(log, key, r) == EntryAt(log, key, w)
            && (EntryAt(log, key, r).Some? <==> w > 0 && log[w - 1][key].Put?)
            && (EntryAt(log, key, r).Some? ==> EntryAt(log, key, r).value.modRevision == w)
  {
    if r > 0 && key !in log[r - 1] {
      VisibleIsLastWrite(log, key, r - 1);
    }
  }

  lemma {:induction false} LastWriteFrom(log: seq<Txn>, key: Bytes, q: nat, r: nat)
    requires q <= r <= |log|
    ensures LastWrite(log, key, q) <= LastWrite(log, key, r)
    ensures LastWrite(log, key, r) <= q ==> LastWrite(log, key, r) == LastWrite(log, key, q)
    ensures LastWrite(log, key, r) <= q ==> EntryAt(log, key, r) == EntryAt(log, key, q)
  {
    if q < r {
      LastWriteFrom(log, key, q, r - 1);
    }
  }

  /** A version that was visible at some revision is the one visible at its own revision. */
  lemma VersionAtItself(log: seq<Txn>, key: Bytes, r: nat)
    requires r <= |log| && EntryAt(log, key, r).Some?
    ensures var m := EntryAt(log, key, r).value.modRevision;
            EntryAt(log, key, m) == EntryAt(log, key, r) && LastWrite(log, key, m) == m
  {
    VisibleIsLastWrite(log, key, r);
    var w := LastWrite(log, key, r);
    LastWriteFrom(log, key, w, r);
  }

  /** A put makes the next version of a key, or its first one, with the next revision; a delete removes the key; other
      keys stay as they are. */
  lemma WriteEffects(db: Etcd, txn: Txn, key: Bytes)
    ensures var now, next := Current(db, key), Current(Append(db, txn), key);
      && (key !in txn ==> next == now)
      && (key in txn && txn[key].Delete? ==> next.None?)
      && (key in txn && txn[key].Put? && now.None? ==>
            next == Some(Entry(key, txn[key].value, |db.log| + 1, |db.log| + 1, 1, txn[key].lease)))
      && (key in txn && txn[key].Put? && now.Some? ==>
            next == Some(Entry(key, txn[key].value, now.value.createRevision, |db.log| + 1, now.value.version + 1, txn[key].lease)))
  {
    PastIsFixed(db.log, [txn], key, |db.log|);
  }
}
