/** The file-backed history (FileHistory in internal/store/history.go): an append-only line log with an
    in-memory index, proved against the abstract table. */
module FileBackend {
  import opened Store
  import opened Ordering
  import opened History
  import opened HistoryFile
  import opened HistoryLog
  import opened HistoryCut
  import opened HistoryDisk
  import opened Lex
  import opened Text

  // ----- Loading, as a loop over lines -----

  method LoadFile(c: Codec, image: Bytes) returns (r: Opening)
    ensures r == Reopen(c, image)
  {
    var rest, complete, index := image, 0, EMPTY;
    ghost var whole := Load(c, image, EMPTY);
    assert whole == Count(0, whole);
    while true
      invariant complete + |rest| == |image|
      invariant whole == Count(complete, Load(c, rest, index))
      decreases |rest|
    {
      var n := FirstLine(rest);
      if n == 0 { break; }
      if n > MAX_RECORD { return Refused; }
      var line := rest[..n];
      if !BlankLine(line) {
        var record := c.decode(line);
        if record.None? { return Refused; }
        var s := ToSnapshot(record.value);
        if s.None? { return Refused; }
        index := Add(index, s.value);
      }
      rest := rest[n..];
      complete := complete + n;
    }
    return Opened(image[..complete], index);
  }

  // ----- Sorting and cutting -----

  method InsertNewest(m: seq<Snapshot>, s: Snapshot) returns (r: seq<Snapshot>)
    ensures r == Placed(m, s)
  {
    var p := 0;
    while p < |m| && m[p].entry.modRevision > s.entry.modRevision
      invariant 0 <= p <= |m| && Placed(m, s) == m[..p] + Placed(m[p..], s)
    {
      PlacedLater(m, p, s);
      p := p + 1;
    }
    r := m[..p] + ([s] + m[p..]);
  }

  lemma PlacedLater(m: seq<Snapshot>, p: nat, s: Snapshot)
    requires p < |m| && m[p].entry.modRevision > s.entry.modRevision
    ensures m[..p] + Placed(m[p..], s) == m[..p + 1] + Placed(m[p + 1..], s)
  {
    assert m[p..][1..] == m[p + 1..];
    assert m[..p + 1] == m[..p] + [m[p]];
  }

  method SortNewest(l: seq<Snapshot>) returns (m: seq<Snapshot>)
    ensures m == Newest(l)
  {
    m := [];
    for n := 0 to |l|
      invariant m == Newest(l[..n])
    {
      m := InsertNewest(m, l[n]);
      assert l[..n + 1][..n] == l[..n];
    }
    assert l[..|l|] == l;
  }

  /** The loop of Prune over the keys. */
  method CutEntries(entries: map<string, seq<Snapshot>>, keep: nat)
    returns (updated: map<string, seq<Snapshot>>, changed: bool)
    ensures updated == CutLists(entries, keep)
    ensures changed <==> SomeTooLong(entries, keep)
  {
    updated, changed := entries, false;
    var left := entries.Keys;
    while left != {}
      invariant left <= entries.Keys && updated.Keys == entries.Keys
      invariant forall k :: k in left ==> updated[k] == entries[k]
      invariant forall k :: k in entries.Keys - left ==> updated[k] == CutList(entries[k], keep)
      invariant changed <==> exists k :: k in entries.Keys - left && |entries[k]| > keep
      decreases left
    {
      ghost var some := AnElement(left);
      var k :| k in left;
      left := left - {k};
      if |entries[k]| > keep {
        var sorted := SortNewest(entries[k]);
        updated := updated[k := Take(sorted, keep)];
        changed := true;
      }
    }
  }

  // ----- Writing the lists -----

  lemma {:induction false} FlattenSnoc(entries: map<string, seq<Snapshot>>, keys: seq<string>, k: string)
    requires k in entries && forall i :: 0 <= i < |keys| ==> keys[i] in entries
    ensures Flatten(entries, keys + [k]) == Flatten(entries, keys) + entries[k]
  {
    if keys == [] {
      assert [] + [k] == [k];
      assert [k][1..] == [];
    } else {
      assert (keys + [k])[1..] == keys[1..] + [k];
      FlattenSnoc(entries, keys[1..], k);
    }
  }

  lemma EncodeSnoc(c: Codec, log: seq<Snapshot>, s: Snapshot)
    ensures Encode(c, log + [s]) == Encode(c, log) + Line(c, s)
  {
    EncodeConcat(c, log, [s]);
    assert [s][1..] == [];
    assert Encode(c, [s]) == Line(c, s);
  }

  lemma EncodePrefix(c: Codec, l: seq<Snapshot>, n: nat)
    requires n < |l|
    ensures Encode(c, l[..n + 1]) == Encode(c, l[..n]) + Line(c, l[n])
  {
    assert l[..n + 1] == l[..n] + [l[n]];
    EncodeSnoc(c, l[..n], l[n]);
  }

  predicate Short(c: Codec, s: Snapshot) { |Line(c, s)| <= MAX_RECORD }

  ghost predicate AllShort(c: Codec, l: seq<Snapshot>, n: nat)
    requires n <= |l|
  {
    forall i :: 0 <= i < n ==> Short(c, l[i])
  }

  lemma ShortNext(c: Codec, l: seq<Snapshot>, n: nat)
    requires n < |l|
    ensures AllShort(c, l, n + 1) <==> AllShort(c, l, n) && Short(c, l[n])
    ensures AllShort(c, l, |l|) ==> AllShort(c, l, n + 1)
  {
  }

  /** Writes one more record unless it is too long. */
  method AddLine(c: Codec, lines: Bytes, l: seq<Snapshot>, n: nat) returns (ok: bool, r: Bytes)
    requires n < |l| && lines == Encode(c, l[..n]) && AllShort(c, l, n)
    ensures ok <==> AllShort(c, l, n + 1)
    ensures !ok ==> !AllShort(c, l, |l|)
    ensures ok ==> r == Encode(c, l[..n + 1])
  {
    EncodePrefix(c, l, n);
    ShortNext(c, l, n);
    var data := Line(c, l[n]);
    ok, r := |data| <= MAX_RECORD, lines + data;
  }

  lemma ShortIsFit(c: Codec, l: seq<Snapshot>)
    requires AllValid(l)
    ensures AllFit(c, l) <==> AllShort(c, l, |l|)
  {
    assert forall i :: 0 <= i < |l| ==> (Fits(c, l[i]) <==> Short(c, l[i]));
  }

  /** The inner loop of replaceEntriesLocked; a record that is too long refuses the rewrite. */
  method EncodeLines(c: Codec, l: seq<Snapshot>) returns (ok: bool, lines: Bytes)
    requires AllValid(l)
    ensures ok <==> AllFit(c, l)
    ensures ok ==> lines == Encode(c, l)
  {
    ShortIsFit(c, l);
    lines := [];
    for n := 0 to |l|
      invariant lines == Encode(c, l[..n])
      invariant AllShort(c, l, n)
    {
      ok, lines := AddLine(c, lines, l, n);
      if !ok { return false, []; }
    }
    assert l[..|l|] == l;
    ok := true;
  }

  ghost predicate EntriesValid(entries: map<string, seq<Snapshot>>) {
    forall k :: k in entries ==> AllValid(entries[k])
  }

  /** Writes one more key's records unless one of them is too long. */
  method AddLines(c: Codec, file: Bytes, entries: map<string, seq<Snapshot>>, keys: seq<string>, n: nat)
    returns (ok: bool, r: Bytes)
    requires n < |keys| && (forall i :: 0 <= i < |keys| ==> keys[i] in entries) && EntriesValid(entries)
    requires file == Encode(c, Flatten(entries, keys[..n]))
    ensures ok <==> AllFit(c, entries[keys[n]])
    ensures ok ==> r == Encode(c, Flatten(entries, keys[..n + 1]))
  {
    var lines;
    ok, lines := EncodeLines(c, entries[keys[n]]);
    r := file + lines;
    WrittenNext(c, entries, keys, n);
  }

  lemma WrittenNext(c: Codec, entries: map<string, seq<Snapshot>>, keys: seq<string>, n: nat)
    requires n < |keys| && forall i :: 0 <= i < |keys| ==> keys[i] in entries
    ensures Encode(c, Flatten(entries, keys[..n + 1])) == Encode(c, Flatten(entries, keys[..n])) + Encode(c, entries[keys[n]])
  {
    assert keys[..n + 1] == keys[..n] + [keys[n]];
    FlattenSnoc(entries, keys[..n], keys[n]);
    EncodeConcat(c, Flatten(entries, keys[..n]), entries[keys[n]]);
  }

  ghost predicate FitUpTo(c: Codec, entries: map<string, seq<Snapshot>>, keys: seq<string>, n: nat)
    requires n <= |keys| && forall i :: 0 <= i < |keys| ==> keys[i] in entries
  {
    forall i :: 0 <= i < n ==> AllFit(c, entries[keys[i]])
  }

  lemma FitNext(c: Codec, entries: map<string, seq<Snapshot>>, keys: seq<string>, n: nat)
    requires n < |keys| && forall i :: 0 <= i < |keys| ==> keys[i] in entries
    ensures FitUpTo(c, entries, keys, n + 1) <==> FitUpTo(c, entries, keys, n) && AllFit(c, entries[keys[n]])
    ensures EntriesFit(c, entries) ==> AllFit(c, entries[keys[n]])
  {
  }

  lemma FitAll(c: Codec, entries: map<string, seq<Snapshot>>, keys: seq<string>)
    requires AllKeys(entries, keys) && (forall i :: 0 <= i < |keys| ==> keys[i] in entries)
    requires FitUpTo(c, entries, keys, |keys|)
    ensures EntriesFit(c, entries)
  {
    forall k | k in entries ensures AllFit(c, entries[k]) {
      assert k in keys;
    }
  }

  /** The loop of replaceEntriesLocked over the sorted keys. */
  method WriteEntries(c: Codec, entries: map<string, seq<Snapshot>>) returns (ok: bool, file: Bytes)
    requires EntriesValid(entries)
    ensures ok <==> EntriesFit(c, entries)
    ensures ok ==> file == WrittenFile(c, entries)
  {
    var keys := SortText(entries.Keys);
    SortedKeys(entries);
    file := [];
    for n := 0 to |keys|
      invariant file == Encode(c, Flatten(entries, keys[..n]))
      invariant FitUpTo(c, entries, keys, n)
    {
      FitNext(c, entries, keys, n);
      ok, file := AddLines(c, file, entries, keys, n);
      if !ok { return false, []; }
    }
    assert keys[..|keys|] == keys;
    FitAll(c, entries, keys);
    ok := true;
  }

  // ----- Listing -----

  lemma NothingListed(ix: Index, t: Table, cluster: string, key: Bytes, modRevision: int, limit: int)
    requires Represents(ix, t) && (Blank(cluster) || key == [] || modRevision < 1 || limit < 1)
    ensures Consistent(t)
    ensures History.ListBefore(t, cluster, key, modRevision, if limit < 0 then 0 else limit) == []
  {
    var low := Below(Revisions(t, cluster, key), modRevision);
    if limit >= 1 {
      assert forall id :: id in t ==> IdOf(t[id]) == id && ValidSnapshot(t[id]);
      assert low == {};
    }
  }

  method FilterBelow(l: seq<Snapshot>, bound: int) returns (low: seq<Snapshot>)
    requires Distinct(l)
    ensures Distinct(low) && forall x :: x in low <==> x in l && x.entry.modRevision < bound
  {
    low := [];
    for n := 0 to |l|
      invariant forall x :: x in low <==> x in l[..n] && x.entry.modRevision < bound
      invariant Distinct(low)
    {
      assert l[..n + 1] == l[..n] + [l[n]];
      if l[n].entry.modRevision < bound {
        forall i | 0 <= i < |low| ensures low[i].entry.modRevision != l[n].entry.modRevision {
          assert low[i] in low;
          var j :| 0 <= j < n && l[..n][j] == low[i];
          assert l[j] == low[i];
        }
        low := low + [l[n]];
      }
    }
    assert l[..|l|] == l;
  }

  lemma PageIsListBefore(t: Table, cluster: string, key: Bytes, bound: int, limit: nat,
                         all: seq<Snapshot>, low: seq<Snapshot>, sorted: seq<Snapshot>)
    requires Consistent(t) && (all == [] || InTable(all, EntryKey(cluster, key), t))
    requires StoredRevisions(all) == Revisions(t, cluster, key)
    requires forall x :: x in low <==> x in all && x.entry.modRevision < bound
    requires NewestFirst(sorted) && forall x :: x in sorted <==> x in low
    ensures Take(sorted, limit) == History.ListBefore(t, cluster, key, bound, limit)
  {
    var revs := seq(|sorted|, i requires 0 <= i < |sorted| => sorted[i].entry.modRevision);
    SortedListing(low, sorted, revs);
    assert StoredRevisions(low) == Below(Revisions(t, cluster, key), bound) by { LowRevisions(all, low, bound); }
    var l := History.ListBefore(t, cluster, key, bound, limit);
    forall i | 0 <= i < |Take(sorted, limit)| ensures sorted[i] == l[i] {
      assert sorted[i] in low;
      var j :| 0 <= j < |all| && all[j] == sorted[i];
      EntryKeyInjective(all[j].cluster, all[j].entry.key, cluster, key);
      assert t[IdOf(all[j])] == all[j];
    }
  }

  lemma LowRevisions(all: seq<Snapshot>, low: seq<Snapshot>, bound: int)
    requires forall x :: x in low <==> x in all && x.entry.modRevision < bound
    ensures StoredRevisions(low) == Below(StoredRevisions(all), bound)
  {
    forall r | r in StoredRevisions(low) ensures r in Below(StoredRevisions(all), bound) {
      var i :| 0 <= i < |low| && low[i].entry.modRevision == r;
      assert low[i] in low;
      var j :| 0 <= j < |all| && all[j] == low[i];
    }
    forall r | r in Below(StoredRevisions(all), bound) ensures r in StoredRevisions(low) {
      var j :| 0 <= j < |all| && all[j].entry.modRevision == r;
      assert all[j] in low;
      var i :| 0 <= i < |low| && low[i] == all[j];
    }
  }

  lemma RepresentedIsValid(ix: Index, t: Table)
    requires Represents(ix, t)
    ensures EntriesValid(ix.entries)
  {
    forall k | k in ix.entries ensures AllValid(ix.entries[k]) {
      assert InTable(ix.entries[k], k, t);
    }
  }

  // ----- The store -----

  /** The operation took effect: it succeeded, or only closing the replaced file failed. */
  predicate Applied(r: Result<(), StoreError>) { r.Ok? || r == Err(CloseFailed) }

  class FileHistory {
    const codec: Codec
    var isOpen: bool
    var file: Bytes
    var entries: map<string, seq<Snapshot>>
    var seen: set<string>
    ghost var table: Table

    ghost function Now(): Disk
      reads this
    {
      Disk(file, Index(entries, seen))
    }

    /** Reopening the file would give these very fields back, and they mean `table`. */
    ghost predicate Valid()
      reads this
    {
      Lawful(codec) && Sound(codec, Now(), table)
    }

    /** Opening whatever load accepts. */
    constructor (c: Codec, ghost image: Bytes, opening: Opening)
      requires Lawful(c) && opening == Reopen(c, image) && opening.Opened?
      ensures Valid() && isOpen && codec == c && Now() == Disk(opening.file, opening.index)
    {
      codec := c;
      isOpen := true;
      file := opening.file;
      entries := opening.index.entries;
      seen := opening.index.seen;
      ghost var t := OpenedIsSound(c, image);
      table := t;
    }

    /** `written` says whether the append and its sync succeed; a failed append is undone. */
    method Save(s: Snapshot, written: bool) returns (r: Result<(), StoreError>)
      requires Valid()
      modifies this
      ensures Valid() && isOpen == old(isOpen)
      ensures r == (if !ValidSnapshot(s) then Err(InvalidSnapshot)
                    else if !isOpen then Err(Closed)
                    else if IdOf(s) in old(table) then Ok(())
                    else if |Line(codec, s)| > MAX_RECORD then Err(RecordTooLarge)
                    else if !written then Err(AppendFailed) else Ok(()))
      ensures r.Ok? ==> Allowed(codec, old(Now()), SaveOp(s)) && Now() == Complete(codec, old(Now()), SaveOp(s))
      ensures r.Err? ==> Now() == old(Now())
      ensures table == if r.Ok? then Insert(old(table), s) else old(table)
    {
      if !ValidSnapshot(s) { return Err(InvalidSnapshot); }
      if !isOpen { return Err(Closed); }
      SeenIffStored(Index(entries, seen), table, s);
      if SeenOf(s) in seen { return Ok(()); }
      if |Line(codec, s)| > MAX_RECORD { return Err(RecordTooLarge); }
      AppendedIsSound(codec, Now(), table, s);
      r := Append(s, written);
    }

    /** The append of a record that is new and fits, undone when it cannot be written whole. */
    method Append(s: Snapshot, written: bool) returns (r: Result<(), StoreError>)
      requires Fits(codec, s) && SeenOf(s) !in seen
      modifies this`file, this`entries, this`seen, this`table
      ensures r == if written then Ok(()) else Err(AppendFailed)
      ensures Now() == if written then Disk(old(file) + Line(codec, s), Add(old(Index(entries, seen)), s)) else old(Now())
      ensures table == if written then Insert(old(table), s) else old(table)
    {
      var ok := AppendBytes(Line(codec, s), written);
      if !ok { return Err(AppendFailed); }
      AddToIndex(s);
      table := Insert(table, s);
      return Ok(());
    }

    /** Writes at the end of the file; a write that fails is undone by truncating to the former size. */
    method AppendBytes(data: Bytes, written: bool) returns (ok: bool)
      modifies this`file
      ensures ok == written && file == if ok then old(file) + data else old(file)
    {
      var originalSize := |file|;
      file := file + data;
      if !written { file := file[..originalSize]; }
      ok := written;
    }

    /** addLocked. */
    method AddToIndex(s: Snapshot)
      requires ValidSnapshot(s)
      modifies this`entries, this`seen
      ensures Index(entries, seen) == Add(old(Index(entries, seen)), s)
    {
      if SeenOf(s) in seen { return; }
      entries := entries[KeyOf(s) := Stored(entries, KeyOf(s)) + [s]];
      seen := seen + {SeenOf(s)};
    }

    method ListBefore(cluster: string, key: Bytes, modRevision: int, limit: int) returns (r: Result<seq<Snapshot>, StoreError>)
      requires Valid()
      ensures Consistent(table)
      ensures isOpen ==> r == Ok(History.ListBefore(table, cluster, key, modRevision, if limit < 0 then 0 else limit))
      ensures !isOpen ==> r == Err(Closed) || r == Ok([])
    {
      if Blank(cluster) || key == [] || modRevision < 1 || limit < 1 {
        NothingListed(Index(entries, seen), table, cluster, key, modRevision, limit);
        return Ok([]);
      }
      if !isOpen { return Err(Closed); }
      var all := Stored(entries, EntryKey(cluster, key));
      assert all != [] ==> InTable(all, EntryKey(cluster, key), table);
      var low := FilterBelow(all, modRevision);
      var sorted := SortNewest(low);
      NewestSorts(low);
      var page := Take(sorted, limit);
      KeyRevisions(Index(entries, seen), table, cluster, key);
      PageIsListBefore(table, cluster, key, modRevision, limit, all, low, sorted);
      return Ok(page);
    }

    /** Writes the new lists beside the old file and renames; nothing changes unless all of that succeeds. Closing
        the replaced file comes last: when it fails, an error is returned although everything is in place. */
    method Replace(updated: map<string, seq<Snapshot>>, ghost u: Table, renamed: bool, closed: bool)
      returns (r: Result<(), StoreError>)
      requires Valid() && Represents(Index(updated, SeenKeys(u)), u)
      modifies this
      ensures Valid() && isOpen == old(isOpen)
      ensures r == if !EntriesFit(codec, updated) then Err(RecordTooLarge)
                   else if !renamed then Err(ReplaceFailed) else if !closed then Err(CloseFailed) else Ok(())
      ensures Now() == if Applied(r) then Rewritten(codec, updated) else old(Now())
      ensures table == if Applied(r) then u else old(table)
    {
      RepresentedIsValid(Index(updated, SeenKeys(u)), u);
      var ok, rewritten := WriteEntries(codec, updated);
      if !ok { return Err(RecordTooLarge); }
      if !renamed { return Err(ReplaceFailed); }
      RewrittenIsSound(codec, updated, u);
      file, entries, seen, table := rewritten, updated, SeenIn(updated), u;
      if !closed { return Err(CloseFailed); }
      return Ok(());
    }

    /** The end of both prunes: rewrite what is wanted, if anything. */
    method Finish(ghost op: Op, wanted: Option<map<string, seq<Snapshot>>>, renamed: bool, closed: bool)
      returns (r: Result<(), StoreError>)
      requires Valid() && !op.SaveOp? && wanted == Wanted(entries, op)
      modifies this
      ensures Valid() && isOpen == old(isOpen)
      ensures Applied(r) ==> Allowed(codec, old(Now()), op) && Now() == Complete(codec, old(Now()), op)
      ensures !Applied(r) ==> Now() == old(Now())
      ensures table == if Applied(r) then Meaning(old(table), op) else old(table)
      ensures renamed && closed && Allowed(codec, old(Now()), op) ==> r.Ok?
    {
      CompletePrune(codec, Now(), op);
      PruneWanted(Now(), table, op);
      if wanted.None? { return Ok(()); }
      r := Replace(wanted.value, Meaning(table, op), renamed, closed);
    }

    method PruneKey(cluster: string, key: Bytes, keep: nat, renamed: bool, closed: bool) returns (r: Result<(), StoreError>)
      requires Valid()
      modifies this
      ensures Valid() && isOpen == old(isOpen)
      ensures var op := PruneKeyOp(cluster, key, keep);
        && (Applied(r) ==> Allowed(codec, old(Now()), op) && Now() == Complete(codec, old(Now()), op))
        && (isOpen && renamed && closed && Allowed(codec, old(Now()), op) ==> r.Ok?)
      ensures table == if Applied(r) then History.PruneKey(old(table), cluster, key, keep) else old(table)
      ensures !Applied(r) ==> Now() == old(Now())
    {
      ghost var op := PruneKeyOp(cluster, key, keep);
      if keep == 0 || Blank(cluster) || key == [] {
        r := Finish(op, None, renamed, closed);
        return;
      }
      if !isOpen { return Err(Closed); }
      var entryKey := EntryKey(cluster, key);
      var l := Stored(entries, entryKey);
      if |l| <= keep {
        r := Finish(op, None, renamed, closed);
        return;
      }
      var sorted := SortNewest(l);
      r := Finish(op, Some(entries[entryKey := Take(sorted, keep)]), renamed, closed);
    }

    method Prune(keep: nat, renamed: bool, closed: bool) returns (r: Result<(), StoreError>)
      requires Valid()
      modifies this
      ensures Valid() && isOpen == old(isOpen)
      ensures var op := PruneOp(keep);
        && (Applied(r) ==> Allowed(codec, old(Now()), op) && Now() == Complete(codec, old(Now()), op))
        && (isOpen && renamed && closed && Allowed(codec, old(Now()), op) ==> r.Ok?)
      ensures table == if Applied(r) then History.Prune(old(table), keep) else old(table)
      ensures !Applied(r) ==> Now() == old(Now())
    {
      if keep == 0 {
        r := Finish(PruneOp(keep), None, renamed, closed);
        return;
      }
      if !isOpen { return Err(Closed); }
      var updated, changed := CutEntries(entries, keep);
      r := Finish(PruneOp(keep), if changed then Some(updated) else None, renamed, closed);
    }
  }
}
