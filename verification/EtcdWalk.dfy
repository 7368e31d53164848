/** The backwards walk through etcd's past (etcdVersionsBefore in internal/app/server.go). */
module EtcdWalk {
  import opened Store
  import opened Ordering
  import opened Mvcc

  type Reply = Result<Option<Entry>, StoreError>

  // ----- The backwards walk -----

  /** The versions found from `revision` downwards, and whether compaction ended the walk. */
  function Walk(get: int -> Reply, revision: int, limit: nat): Result<(seq<Entry>, bool), StoreError>
    decreases revision
  {
    if revision <= 0 || limit == 0 then Ok(([], false))
    else match get(revision)
      case Err(Compacted) => Ok(([], true))
      case Err(error) => Err(error)
      case Ok(None) => Ok(([], false))
      case Ok(Some(e)) =>
        if e.modRevision < 1 || e.modRevision > revision then Ok(([], false))
        else match Walk(get, e.modRevision - 1, limit - 1)
          case Err(error) => Err(error)
          case Ok(rest) => Ok(([e] + rest.0, rest.1))
  }

  function Prepend(found: seq<Entry>, r: Result<(seq<Entry>, bool), StoreError>): Result<(seq<Entry>, bool), StoreError> {
    match r case Err(error) => Err(error) case Ok(rest) => Ok((found + rest.0, rest.1))
  }

  lemma PrependTwice(found: seq<Entry>, e: Entry, r: Result<(seq<Entry>, bool), StoreError>)
    ensures Prepend(found, Prepend([e], r)) == Prepend(found + [e], r)
  {
    if r.Ok? {
      assert found + ([e] + r.value.0) == found + [e] + r.value.0;
    }
  }

  /** Strictly older entry by entry, all from `revision` or before. */
  ghost predicate Descends(entries: seq<Entry>, revision: int) {
    && (forall i :: 0 <= i < |entries| ==> 1 <= entries[i].modRevision <= revision)
    && forall i, j :: 0 <= i < j < |entries| ==> entries[i].modRevision > entries[j].modRevision
  }

  lemma {:induction false} WalkDescends(get: int -> Reply, revision: int, limit: nat)
    ensures var w := Walk(get, revision, limit); w.Ok? ==> |w.value.0| <= limit && Descends(w.value.0, revision)
    decreases revision
  {
    if revision > 0 && limit > 0 && get(revision).Ok? && get(revision).value.Some? {
      var e := get(revision).value.value;
      if 1 <= e.modRevision <= revision {
        WalkDescends(get, e.modRevision - 1, limit - 1);
        WalkFinds(get, revision, limit, e);
      }
    }
  }

  /** The walk fails exactly with the error of a read it makes, other than compaction, which ends it instead. */
  lemma {:induction false} WalkFailsWith(get: int -> Reply, revision: int, limit: nat, error: StoreError)
    requires Walk(get, revision, limit) == Err(error)
    ensures error != Compacted && exists r :: 1 <= r <= revision && get(r) == Err(error)
    decreases revision
  {
    if get(revision) == Err(error) {
      assert 1 <= revision <= revision && get(revision) == Err(error);
    } else {
      var e := get(revision).value.value;
      WalkFailsWith(get, e.modRevision - 1, limit - 1, error);
      var r :| 1 <= r <= e.modRevision - 1 && get(r) == Err(error);
      assert 1 <= r <= revision;
    }
  }

  /** The first read decides: an error is passed on, compaction and a missing key end the walk, and so does an answer
      that is no older version. */
  lemma FirstRead(get: int -> Reply, revision: int, limit: nat)
    requires revision >= 1 && limit >= 1
    ensures get(revision) == Err(Compacted) ==> Walk(get, revision, limit) == Ok(([], true))
    ensures get(revision).Err? && get(revision).error != Compacted ==> Walk(get, revision, limit) == Err(get(revision).error)
    ensures get(revision) == Ok(None) ==> Walk(get, revision, limit) == Ok(([], false))
    ensures (get(revision).Ok? && get(revision).value.Some?
             && !(1 <= get(revision).value.value.modRevision <= revision)) ==> Walk(get, revision, limit) == Ok(([], false))
  {
  }

  lemma WalkFinds(get: int -> Reply, revision: int, limit: nat, e: Entry)
    requires revision > 0 && limit > 0 && get(revision) == Ok(Some(e)) && 1 <= e.modRevision <= revision
    ensures Walk(get, revision, limit) == Prepend([e], Walk(get, e.modRevision - 1, limit - 1))
  {
  }

  lemma PrependStop(found: seq<Entry>, compacted: bool)
    ensures Prepend(found, Ok(([], compacted))) == Ok((found, compacted))
  {
    assert found + [] == found;
  }

  lemma PrependNone(r: Result<(seq<Entry>, bool), StoreError>)
    ensures Prepend([], r) == r
  {
    if r.Ok? { assert [] + r.value.0 == r.value.0; }
  }

  /** The loop stops for every way etcd may answer, and computes the walk. */
  method EtcdVersionsBefore(get: int -> Reply, before: int, limit: nat) returns (r: Result<(seq<Entry>, bool), StoreError>)
    ensures r == Walk(get, before - 1, limit)
    ensures r.Ok? ==> |r.value.0| <= limit && Descends(r.value.0, before - 1)
  {
    var entries: seq<Entry> := [];
    var revision := before - 1;
    ghost var whole := Walk(get, before - 1, limit);
    WalkDescends(get, before - 1, limit);
    PrependNone(whole);
    while revision > 0 && |entries| < limit
      invariant |entries| <= limit
      invariant whole == Prepend(entries, Walk(get, revision, limit - |entries|))
      decreases revision
    {
      var reply := get(revision);
      if reply.Err? && reply.error == Compacted {
        PrependStop(entries, true);
        return Ok((entries, true));
      }
      if reply.Err? {
        return Err(reply.error);
      }
      if reply.value.None? || reply.value.value.modRevision < 1 || reply.value.value.modRevision > revision {
        break;
      }
      var e := reply.value.value;
      WalkFinds(get, revision, limit - |entries|, e);
      PrependTwice(entries, e, Walk(get, e.modRevision - 1, limit - |entries| - 1));
      entries := entries + [e];
      revision := e.modRevision - 1;
    }
    PrependStop(entries, false);
    return Ok((entries, false));
  }

  // ----- The walk against an MVCC log -----

  function Reads(db: Etcd, key: Bytes): int -> Reply {
    r => GetAtRevision(db, key, r)
  }

  /** The versions a walk without limit finds. */
  function Chain(db: Etcd, key: Bytes, revision: int): (c: seq<Entry>)
    requires revision <= |db.log|
    ensures forall i :: 0 <= i < |c| ==> 1 <= c[i].modRevision <= revision
    decreases revision
  {
    if revision < 1 || revision < db.compacted then []
    else match EntryAt(db.log, key, revision)
      case None => []
      case Some(e) => [e] + Chain(db, key, e.modRevision - 1)
  }

  /** The revision whose read ends the walk. */
  function ChainEnd(db: Etcd, key: Bytes, revision: int): int
    requires revision <= |db.log|
  {
    var c := Chain(db, key, revision);
    if c == [] then revision else c[|c| - 1].modRevision - 1
  }

  lemma ChainStep(db: Etcd, key: Bytes, revision: int)
    requires revision <= |db.log| && Chain(db, key, revision) != []
    ensures var c := Chain(db, key, revision);
            && EntryAt(db.log, key, revision) == Some(c[0])
            && c[1..] == Chain(db, key, c[0].modRevision - 1)
            && ChainEnd(db, key, revision) == ChainEnd(db, key, c[0].modRevision - 1)
  {
  }

  lemma WalkStep(db: Etcd, key: Bytes, revision: int, limit: nat)
    requires 1 <= revision <= |db.log| && limit > 0
    ensures var w := Walk(Reads(db, key), revision, limit);
            if revision < db.compacted then w == Ok(([], true))
            else match EntryAt(db.log, key, revision)
              case None => w == Ok(([], false))
              case Some(e) => w == Prepend([e], Walk(Reads(db, key), e.modRevision - 1, limit - 1))
  {
    assert Reads(db, key)(revision) == GetAtRevision(db, key, revision);
  }

  /** Compaction is what ends the walk, and it does so before the limit is reached. */
  predicate CutByCompaction(db: Etcd, key: Bytes, revision: int, limit: nat)
    requires revision <= |db.log|
  {
    |Chain(db, key, revision)| < limit && 1 <= ChainEnd(db, key, revision) < db.compacted
  }

  ghost predicate WalksChain(db: Etcd, key: Bytes, revision: int, limit: nat)
    requires revision <= |db.log|
  {
    Walk(Reads(db, key), revision, limit) ==
      Ok((Take(Chain(db, key, revision), limit), CutByCompaction(db, key, revision, limit)))
  }

  lemma WalkNothing(db: Etcd, key: Bytes, revision: int, limit: nat)
    requires revision <= |db.log| && (revision < 1 || limit == 0)
    ensures WalksChain(db, key, revision, limit)
  {
  }

  lemma WalkStops(db: Etcd, key: Bytes, revision: int, limit: nat)
    requires 1 <= revision <= |db.log| && limit > 0 && Chain(db, key, revision) == []
    ensures WalksChain(db, key, revision, limit)
  {
    WalkStep(db, key, revision, limit);
    assert revision < db.compacted || EntryAt(db.log, key, revision).None?;
  }

  lemma ChainCons(db: Etcd, key: Bytes, revision: int, e: Entry, limit: nat)
    requires 1 <= revision <= |db.log| && revision >= db.compacted && EntryAt(db.log, key, revision) == Some(e) && limit > 0
    ensures Chain(db, key, revision) == [e] + Chain(db, key, e.modRevision - 1)
    ensures CutByCompaction(db, key, revision, limit) == CutByCompaction(db, key, e.modRevision - 1, limit - 1)
  {
    ChainStep(db, key, revision);
  }

  lemma WalkExtends(db: Etcd, key: Bytes, revision: int, e: Entry, limit: nat)
    requires 1 <= revision <= |db.log| && revision >= db.compacted && EntryAt(db.log, key, revision) == Some(e) && limit > 0
    requires WalksChain(db, key, e.modRevision - 1, limit - 1)
    ensures WalksChain(db, key, revision, limit)
  {
    var rest, cut := Chain(db, key, e.modRevision - 1), CutByCompaction(db, key, revision, limit);
    WalkStep(db, key, revision, limit);
    ChainCons(db, key, revision, e, limit);
    ExtendWalk(e, rest, limit, cut);
  }

  lemma {:induction false} AlwaysWalksChain(db: Etcd, key: Bytes, revision: int, limit: nat)
    requires revision <= |db.log|
    ensures WalksChain(db, key, revision, limit)
    decreases revision
  {
    if revision < 1 || limit == 0 {
      WalkNothing(db, key, revision, limit);
    } else if Chain(db, key, revision) == [] {
      WalkStops(db, key, revision, limit);
    } else {
      var e := EntryAt(db.log, key, revision).value;
      AlwaysWalksChain(db, key, e.modRevision - 1, limit - 1);
      WalkExtends(db, key, revision, e, limit);
    }
  }

  /** The limited loop against the log returns the start of that chain, and reports compaction
      exactly when compaction is what ended it. */
  lemma WalkIsChain(db: Etcd, key: Bytes, revision: int, limit: nat)
    requires revision <= |db.log|
    ensures Walk(Reads(db, key), revision, limit) ==
              Ok((Take(Chain(db, key, revision), limit), CutByCompaction(db, key, revision, limit)))
  {
    AlwaysWalksChain(db, key, revision, limit);
  }

  lemma ExtendWalk(e: Entry, rest: seq<Entry>, limit: nat, compacted: bool)
    requires limit > 0
    ensures Prepend([e], Ok((Take(rest, limit - 1), compacted))) == Ok((Take([e] + rest, limit), compacted))
  {
    assert Take([e] + rest, limit) == [e] + Take(rest, limit - 1);
  }

  lemma {:induction false} ChainVersion(db: Etcd, key: Bytes, revision: int, i: nat)
    requires revision <= |db.log| && i < |Chain(db, key, revision)|
    ensures IsVersion(db, key, Chain(db, key, revision)[i])
    decreases revision
  {
    var c := Chain(db, key, revision);
    ChainStep(db, key, revision);
    if i == 0 {
      VersionAtItself(db.log, key, revision);
    } else {
      assert c[i] == c[1..][i - 1];
      ChainVersion(db, key, c[0].modRevision - 1, i - 1);
    }
  }

  lemma DescendsCons(e: Entry, rest: seq<Entry>, revision: int)
    requires 1 <= e.modRevision <= revision && Descends(rest, e.modRevision - 1)
    ensures Descends([e] + rest, revision)
  {
  }

  lemma {:induction false} ChainIsDescending(db: Etcd, key: Bytes, revision: int)
    requires revision <= |db.log|
    ensures Descends(Chain(db, key, revision), revision)
    decreases revision
  {
    if Chain(db, key, revision) != [] {
      var e := EntryAt(db.log, key, revision).value;
      ChainIsDescending(db, key, e.modRevision - 1);
      DescendsCons(e, Chain(db, key, e.modRevision - 1), revision);
    }
  }

  lemma ChainDescends(db: Etcd, key: Bytes, revision: int, i: nat, j: nat)
    requires revision <= |db.log| && i < j < |Chain(db, key, revision)|
    ensures Chain(db, key, revision)[i].modRevision > Chain(db, key, revision)[j].modRevision
  {
    ChainIsDescending(db, key, revision);
  }

  /** None skipped: between its end and its start the walk finds every write of the key. */
  lemma {:induction false} ChainCovers(db: Etcd, key: Bytes, revision: int, v: int)
    requires revision <= |db.log| && WritesAt(db, key, v) && ChainEnd(db, key, revision) < v <= revision
    ensures v in EntryRevisions(Chain(db, key, revision))
    decreases revision
  {
    var c := Chain(db, key, revision);
    ChainStep(db, key, revision);
    VisibleIsLastWrite(db.log, key, revision);
    if v < c[0].modRevision {
      ChainCovers(db, key, c[0].modRevision - 1, v);
    }
    FirstRevision(c, v);
  }

  predicate WritesAt(db: Etcd, key: Bytes, v: int) {
    1 <= v <= |db.log| && key in db.log[v - 1]
  }

  /** Why a walk ends below its limit: the first revision, compaction, or a key that is absent there. */
  lemma {:induction false} ChainStops(db: Etcd, key: Bytes, revision: int)
    requires revision <= |db.log|
    ensures var end := ChainEnd(db, key, revision);
            end < 1 || end < db.compacted ||
            (end <= |db.log| && EntryAt(db.log, key, end).None?)
    decreases revision
  {
    var c := Chain(db, key, revision);
    if c != [] {
      ChainStops(db, key, c[0].modRevision - 1);
      assert c[1..] == Chain(db, key, c[0].modRevision - 1);
    }
  }

  lemma FirstRevision(c: seq<Entry>, v: int)
    requires c != []
    ensures v in EntryRevisions(c) <==> v == c[0].modRevision || v in EntryRevisions(c[1..])
  {
    if v in EntryRevisions(c) && v != c[0].modRevision {
      var i :| 0 <= i < |c| && c[i].modRevision == v;
      assert c[1..][i - 1].modRevision == v;
    }
    if v in EntryRevisions(c[1..]) {
      var i :| 0 <= i < |c[1..]| && c[1..][i].modRevision == v;
      assert c[i + 1].modRevision == v;
    }
  }

  function EntryRevisions(entries: seq<Entry>): set<int> {
    set i | 0 <= i < |entries| :: entries[i].modRevision
  }
}
