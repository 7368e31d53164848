/** The history file of internal/store/history.go: records, lines, index keys and loading. */
module HistoryFile {
  import opened Store
  import opened History
  import opened Text
  import Base64

  const RECORD_VERSION := 1
  const MAX_RECORD := 8388608
  const NEWLINE: Byte := 10

  datatype Record = Record(
    formatVersion: int, cluster: string, keyBase64: string, valueBase64: string,
    createRevision: int, modRevision: int, keyVersion: int, lease: int, capturedAt: int)

  function RecordFromSnapshot(s: Snapshot): Record {
    Record(RECORD_VERSION, s.cluster, Base64.Encode(s.entry.key), Base64.Encode(s.entry.value),
           s.entry.createRevision, s.entry.modRevision, s.entry.version, s.entry.lease, s.capturedAt)
  }

  predicate ValidSnapshot(s: Snapshot) {
    !Blank(s.cluster) && s.entry.key != [] && s.entry.modRevision >= 1
  }

  function ToSnapshot(r: Record): Option<Snapshot> {
    if r.formatVersion != RECORD_VERSION then None
    else match (Base64.Decode(r.keyBase64), Base64.Decode(r.valueBase64))
      case (Some(key), Some(value)) =>
        var s := Snapshot(r.cluster, Entry(key, value, r.createRevision, r.modRevision, r.keyVersion, r.lease), r.capturedAt);
        if ValidSnapshot(s) then Some(s) else None
      case _ => None
  }

  lemma RecordRoundTrip(s: Snapshot)
    requires ValidSnapshot(s)
    ensures ToSnapshot(RecordFromSnapshot(s)) == Some(s)
  {
    Base64.RoundTrip(s.entry.key);
    Base64.RoundTrip(s.entry.value);
  }

  /** What is read from a record is what the record says, and only records of this version with decodable key and
      value and a valid snapshot are read. */
  lemma ReadIff(r: Record)
    ensures ToSnapshot(r).Some? <==>
      && r.formatVersion == 1 && Base64.Decode(r.keyBase64).Some? && Base64.Decode(r.valueBase64).Some?
      && !Blank(r.cluster) && Base64.Decode(r.keyBase64).value != [] && r.modRevision >= 1
    ensures ToSnapshot(r).Some? ==>
      var s := ToSnapshot(r).value;
      && s.cluster == r.cluster && s.capturedAt == r.capturedAt
      && Base64.Decode(r.keyBase64) == Some(s.entry.key) && Base64.Decode(r.valueBase64) == Some(s.entry.value)
      && s.entry.createRevision == r.createRevision && s.entry.modRevision == r.modRevision
      && s.entry.version == r.keyVersion && s.entry.lease == r.lease
  {
  }

  // ----- Index keys -----

  const NUL := 0 as char

  function EntryKey(cluster: string, key: Bytes): string {
    cluster + [NUL] + Base64.EncodeRaw(key)
  }

  function Decimal(n: nat): (s: string)
    ensures s != "" && forall i :: 0 <= i < |s| ==> '0' <= s[i] <= '9'
  {
    (if n < 10 then "" else Decimal(n / 10)) + [(n % 10 + '0' as int) as char]
  }

  function SeenKey(cluster: string, key: Bytes, revision: nat): string {
    EntryKey(cluster, key) + [NUL] + Decimal(revision)
  }

  lemma {:induction false} DecimalInjective(a: nat, b: nat)
    requires Decimal(a) == Decimal(b)
    ensures a == b
  {
    var x, y := Decimal(a), Decimal(b);
    assert x[|x| - 1] == y[|y| - 1];
    assert a % 10 == b % 10;
    var x', y' := x[..|x| - 1], y[..|y| - 1];
    assert x' == (if a < 10 then "" else Decimal(a / 10));
    assert y' == (if b < 10 then "" else Decimal(b / 10));
    if a >= 10 && b >= 10 {
      DecimalInjective(a / 10, b / 10);
    }
  }

  /** Two strings split at their last NUL agree on both sides. */
  lemma LastNulSplits(a: string, x: string, b: string, y: string)
    requires a + [NUL] + x == b + [NUL] + y && NUL !in x && NUL !in y
    ensures a == b && x == y
  {
    var s := a + [NUL] + x;
    NulIsEarlier(a, x, s, |b|);
    NulIsEarlier(b, y, s, |a|);
    assert s[..|a|] == a && s[..|b|] == b;
    assert s[|a| + 1..] == x && s[|b| + 1..] == y;
  }

  lemma NulIsEarlier(a: string, x: string, s: string, p: nat)
    requires s == a + [NUL] + x && NUL !in x && p < |s| && s[p] == NUL
    ensures p <= |a|
  {
    assert forall q :: |a| < q < |s| ==> s[q] in x;
  }

  /** Arbitrary cluster identifiers and binary keys never share an index key. */
  lemma EntryKeyInjective(c: string, k: Bytes, d: string, l: Bytes)
    requires EntryKey(c, k) == EntryKey(d, l)
    ensures c == d && k == l
  {
    LastNulSplits(c, Base64.EncodeRaw(k), d, Base64.EncodeRaw(l));
    Base64.RawInjective(k, l);
  }

  lemma SeenKeyInjective(c: string, k: Bytes, r: nat, d: string, l: Bytes, q: nat)
    requires SeenKey(c, k, r) == SeenKey(d, l, q)
    ensures c == d && k == l && r == q
  {
    LastNulSplits(EntryKey(c, k), Decimal(r), EntryKey(d, l), Decimal(q));
    EntryKeyInjective(c, k, d, l);
    DecimalInjective(r, q);
  }

  // ----- The in-memory index -----

  datatype Index = Index(entries: map<string, seq<Snapshot>>, seen: set<string>)

  const EMPTY := Index(map[], {})

  function KeyOf(s: Snapshot): string {
    EntryKey(s.cluster, s.entry.key)
  }

  function SeenOf(s: Snapshot): string
    requires ValidSnapshot(s)
  {
    SeenKey(s.cluster, s.entry.key, s.entry.modRevision)
  }

  function Stored(entries: map<string, seq<Snapshot>>, entryKey: string): seq<Snapshot> {
    if entryKey in entries then entries[entryKey] else []
  }

  /** addLocked: one more snapshot unless its identifier was seen. */
  function Add(ix: Index, s: Snapshot): Index
    requires ValidSnapshot(s)
  {
    if SeenOf(s) in ix.seen then ix
    else Index(ix.entries[KeyOf(s) := Stored(ix.entries, KeyOf(s)) + [s]], ix.seen + {SeenOf(s)})
  }

  /** The identifiers of a table as the strings that `seen` holds. */
  function SeenKeys(t: Table): set<string> {
    set id | id in t && id.revision >= 0 :: SeenKey(id.cluster, id.key, id.revision)
  }

  ghost predicate Holds(entries: map<string, seq<Snapshot>>, t: Table) {
    forall id :: id in t ==>
      IdOf(t[id]) == id && ValidSnapshot(t[id]) && KeyOf(t[id]) in entries && t[id] in entries[KeyOf(t[id])]
  }

  ghost predicate InTable(l: seq<Snapshot>, entryKey: string, t: Table) {
    && l != [] && Distinct(l)
    && forall i :: 0 <= i < |l| ==>
         ValidSnapshot(l[i]) && KeyOf(l[i]) == entryKey && IdOf(l[i]) in t && t[IdOf(l[i])] == l[i]
  }

  /** The two maps represent the table: the same snapshots, each once, and exactly their identifiers. */
  ghost predicate Represents(ix: Index, t: Table) {
    && Holds(ix.entries, t)
    && (forall k :: k in ix.entries ==> InTable(ix.entries[k], k, t))
    && ix.seen == SeenKeys(t)
  }

  ghost predicate Distinct(l: seq<Snapshot>) {
    forall i, j :: 0 <= i < j < |l| ==> l[i].entry.modRevision != l[j].entry.modRevision
  }

  lemma SameSeenSameId(a: Snapshot, b: Snapshot)
    requires ValidSnapshot(a) && ValidSnapshot(b)
    ensures SeenOf(a) == SeenOf(b) <==> IdOf(a) == IdOf(b)
  {
    if SeenOf(a) == SeenOf(b) {
      SeenKeyInjective(a.cluster, a.entry.key, a.entry.modRevision, b.cluster, b.entry.key, b.entry.modRevision);
    }
  }

  /** The string-keyed duplicate check is the check on identifiers. */
  lemma SeenIffStored(ix: Index, t: Table, s: Snapshot)
    requires Represents(ix, t) && ValidSnapshot(s)
    ensures SeenOf(s) in ix.seen <==> IdOf(s) in t
  {
    if SeenOf(s) in ix.seen {
      var id :| id in t && id.revision >= 0 && SeenOf(s) == SeenKey(id.cluster, id.key, id.revision);
      SeenKeyInjective(s.cluster, s.entry.key, s.entry.modRevision, id.cluster, id.key, id.revision);
    }
    if IdOf(s) in t {
      assert SeenOf(s) == SeenKey(IdOf(s).cluster, IdOf(s).key, IdOf(s).revision);
    }
  }

  lemma NewRevision(l: seq<Snapshot>, t: Table, s: Snapshot)
    requires ValidSnapshot(s) && IdOf(s) !in t && (l == [] || InTable(l, KeyOf(s), t))
    ensures InTable(l + [s], KeyOf(s), Insert(t, s))
  {
    forall i | 0 <= i < |l| ensures l[i].entry.modRevision != s.entry.modRevision {
      EntryKeyInjective(l[i].cluster, l[i].entry.key, s.cluster, s.entry.key);
    }
  }

  lemma AddHolds(ix: Index, t: Table, s: Snapshot)
    requires Represents(ix, t) && ValidSnapshot(s) && IdOf(s) !in t && SeenOf(s) !in ix.seen
    ensures Holds(Add(ix, s).entries, Insert(t, s))
  {
    var ix', t', k := Add(ix, s), Insert(t, s), KeyOf(s);
    var l := Stored(ix.entries, k);
    assert ix'.entries[k] == l + [s];
    forall id | id in t' ensures KeyOf(t'[id]) in ix'.entries && t'[id] in ix'.entries[KeyOf(t'[id])] {
      if id in t {
        assert t[id] in ix.entries[KeyOf(t[id])];
      } else {
        assert (l + [s])[|l|] == s;
      }
    }
  }

  lemma AddInTable(ix: Index, t: Table, s: Snapshot, x: string)
    requires Represents(ix, t) && ValidSnapshot(s) && IdOf(s) !in t && SeenOf(s) !in ix.seen && x in Add(ix, s).entries
    ensures InTable(Add(ix, s).entries[x], x, Insert(t, s))
  {
    if x == KeyOf(s) {
      NewRevision(Stored(ix.entries, x), t, s);
    } else {
      assert InTable(ix.entries[x], x, t);
    }
  }

  lemma AddRepresents(ix: Index, t: Table, s: Snapshot)
    requires Represents(ix, t) && ValidSnapshot(s)
    ensures Represents(Add(ix, s), Insert(t, s))
  {
    SeenIffStored(ix, t, s);
    if IdOf(s) !in t {
      AddHolds(ix, t, s);
      forall x | x in Add(ix, s).entries ensures InTable(Add(ix, s).entries[x], x, Insert(t, s)) {
        AddInTable(ix, t, s, x);
      }
      assert SeenKeys(Insert(t, s)) == SeenKeys(t) + {SeenOf(s)};
    }
  }

  /** An index represents one table, which its lists alone determine. */
  lemma RepresentsUnique(ix: Index, t: Table, jx: Index, u: Table)
    requires Represents(ix, t) && Represents(jx, u) && ix.entries == jx.entries
    ensures t == u
  {
    RepresentsSubset(ix, t, jx, u);
    RepresentsSubset(jx, u, ix, t);
  }

  lemma RepresentsSubset(ix: Index, t: Table, jx: Index, u: Table)
    requires Represents(ix, t) && Represents(jx, u) && ix.entries == jx.entries
    ensures forall id :: id in t ==> id in u && u[id] == t[id]
  {
    forall id | id in t ensures id in u && u[id] == t[id] {
      var k := KeyOf(t[id]);
      assert InTable(jx.entries[k], k, u);
      var i :| 0 <= i < |ix.entries[k]| && ix.entries[k][i] == t[id];
    }
  }
}
