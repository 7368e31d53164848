/** The history file together with its index: what each operation leaves, what a crash leaves, and what
    reopening makes of it (internal/store/history.go). */
module HistoryDisk {
  import opened Store
  import opened Ordering
  import opened History
  import opened HistoryFile
  import opened HistoryLog
  import opened HistoryCut
  import opened Lex
  import Text

  datatype Disk = Disk(file: Bytes, index: Index)

  /** Reopening the file gives the file and this very index back, and the index means `t`. */
  ghost predicate Sound(c: Codec, d: Disk, t: Table) {
    Reopen(c, d.file) == Opened(d.file, d.index) && Represents(d.index, t)
  }

  // ----- Loading in two parts -----

  lemma FirstLineOfPrefix(file: Bytes, more: Bytes)
    requires FirstLine(file) > 0
    ensures FirstLine(file + more) == FirstLine(file)
  {
    var n := FirstLine(file);
    assert (file + more)[..n - 1] == file[..n - 1];
    FirstLineEndsAt(file + more, n - 1);
  }

  lemma FirstLineAlone(file: Bytes)
    requires FirstLine(file) > 0
    ensures FirstLine(file[..FirstLine(file)]) == FirstLine(file)
  {
    var n := FirstLine(file);
    assert file[..n][..n - 1] == file[..n - 1];
    FirstLineEndsAt(file[..n], n - 1);
  }

  /** What the first complete line makes of the index; None when it is refused. */
  function LineStep(c: Codec, line: Bytes, ix: Index): Option<Index> {
    if |line| > MAX_RECORD then None
    else if BlankLine(line) then Some(ix)
    else match c.decode(line)
      case None => None
      case Some(record) =>
        match ToSnapshot(record)
        case None => None
        case Some(s) => Some(Add(ix, s))
  }

  lemma LoadFirst(c: Codec, file: Bytes, ix: Index)
    requires FirstLine(file) > 0
    ensures var n := FirstLine(file);
      Load(c, file, ix) == match LineStep(c, file[..n], ix)
                           case None => Corrupt
                           case Some(jx) => Count(n, Load(c, file[n..], jx))
  {
  }

  lemma SplitFirst(file: Bytes) returns (line: Bytes, rest: Bytes)
    requires FirstLine(file) > 0
    ensures file == line + rest && line != [] && FirstLine(line) == |line|
  {
    line, rest := file[..FirstLine(file)], file[FirstLine(file)..];
    FirstLineAlone(file);
  }

  lemma LoadLine(c: Codec, line: Bytes, rest: Bytes, ix: Index)
    requires line != [] && FirstLine(line) == |line|
    ensures Load(c, line + rest, ix) == match LineStep(c, line, ix)
                                        case None => Corrupt
                                        case Some(jx) => Count(|line|, Load(c, rest, jx))
  {
    FirstLineOfPrefix(line, rest);
    LoadFirst(c, line + rest, ix);
    assert (line + rest)[..|line|] == line && (line + rest)[|line|..] == rest;
  }

  lemma Associative(a: Bytes, b: Bytes, c: Bytes)
    ensures (a + b) + c == a + (b + c)
  {
  }

  /** Loading what follows a file of complete lines continues from that file's index. */
  lemma {:induction false} LoadAppend(c: Codec, file: Bytes, more: Bytes, ix: Index, jx: Index)
    requires Load(c, file, ix) == Loaded(jx, |file|)
    ensures Load(c, file + more, ix) == Count(|file|, Load(c, more, jx))
    decreases |file|
  {
    if FirstLine(file) == 0 {
      assert file + more == more;
    } else {
      var line, rest := SplitFirst(file);
      LoadLine(c, line, rest, ix);
      LoadAppend(c, rest, more, LineStep(c, line, ix).value, jx);
      LoadLine(c, line, rest + more, ix);
      Associative(line, rest, more);
    }
  }

  /** The counted bytes are complete lines that load alike on their own. */
  lemma {:induction false} LoadComplete(c: Codec, file: Bytes, ix: Index) returns (whole: Bytes, tail: Bytes)
    requires Load(c, file, ix).Loaded?
    ensures file == whole + tail && Load(c, file, ix).bytes == |whole| && Load(c, whole, ix) == Load(c, file, ix)
    decreases |file|
  {
    if FirstLine(file) == 0 {
      whole, tail := [], file;
      LoadNothing(c, [], ix);
    } else {
      var line, rest := SplitFirst(file);
      LoadLine(c, line, rest, ix);
      whole, tail := LoadComplete(c, rest, LineStep(c, line, ix).value);
      LoadLine(c, line, whole, ix);
      Associative(line, whole, tail);
      whole := line + whole;
    }
  }

  lemma LoadedReopens(c: Codec, file: Bytes, ix: Index)
    requires Load(c, file, EMPTY) == Loaded(ix, |file|)
    ensures Reopen(c, file) == Opened(file, ix)
  {
    assert file[..|file|] == file;
  }

  /** Whatever loads represents a table. */
  lemma {:induction false} LoadRepresents(c: Codec, file: Bytes, ix: Index, t: Table) returns (u: Table)
    requires Represents(ix, t) && Load(c, file, ix).Loaded?
    ensures Represents(Load(c, file, ix).index, u)
    decreases |file|
  {
    var n := FirstLine(file);
    if n == 0 { return t; }
    LoadFirst(c, file, ix);
    var line := file[..n];
    if BlankLine(line) {
      u := LoadRepresents(c, file[n..], ix, t);
    } else {
      var s := ToSnapshot(c.decode(line).value).value;
      AddRepresents(ix, t, s);
      u := LoadRepresents(c, file[n..], Add(ix, s), Insert(t, s));
    }
  }

  /** Every file that opens at all opens to a sound disk, its torn end cut off. */
  lemma OpenedIsSound(c: Codec, image: Bytes) returns (t: Table)
    requires Reopen(c, image).Opened?
    ensures Sound(c, Disk(Reopen(c, image).file, Reopen(c, image).index), t)
  {
    var whole, tail := LoadComplete(c, image, EMPTY);
    t := LoadRepresents(c, image, EMPTY, map[]);
    assert image[..|whole|] == whole;
    LoadedReopens(c, whole, Load(c, image, EMPTY).index);
  }

  lemma SoundLoads(c: Codec, d: Disk, t: Table)
    requires Sound(c, d, t)
    ensures Load(c, d.file, EMPTY) == Loaded(d.index, |d.file|)
  {
    var r := Load(c, d.file, EMPTY);
    assert |d.file[..r.bytes]| == r.bytes;
  }

  /** A sound file is empty or ends with a newline: the next append starts on a record boundary. */
  lemma CleanBoundary(c: Codec, d: Disk, t: Table)
    requires Sound(c, d, t)
    ensures d.file == [] || d.file[|d.file| - 1] == NEWLINE
  {
    SoundLoads(c, d, t);
    if d.file != [] { LoadedEnds(c, d.file, EMPTY); }
  }

  lemma {:induction false} LoadedEnds(c: Codec, file: Bytes, ix: Index)
    requires Load(c, file, ix).Loaded? && Load(c, file, ix).bytes == |file| > 0
    ensures file[|file| - 1] == NEWLINE
    decreases |file|
  {
    var n := FirstLine(file);
    LoadFirst(c, file, ix);
    if n < |file| {
      LoadedEnds(c, file[n..], LineStep(c, file[..n], ix).value);
    }
  }

  // ----- What an operation leaves -----

  datatype Op = SaveOp(snapshot: Snapshot) | PruneKeyOp(cluster: string, key: Bytes, keep: nat) | PruneOp(keep: nat)

  ghost predicate EntriesFit(c: Codec, entries: map<string, seq<Snapshot>>) {
    forall k :: k in entries ==> AllFit(c, entries[k])
  }

  /** `seen` as it is rebuilt from the lists. */
  function SeenIn(entries: map<string, seq<Snapshot>>): set<string> {
    set k, i | k in entries && 0 <= i < |entries[k]| && entries[k][i].entry.modRevision >= 0 ::
      SeenKey(entries[k][i].cluster, entries[k][i].entry.key, entries[k][i].entry.modRevision)
  }

  /** The lists written key by key, the keys in order. */
  ghost function WrittenFile(c: Codec, entries: map<string, seq<Snapshot>>): Bytes {
    Encode(c, Flatten(entries, SortedText(entries.Keys)))
  }

  ghost function Rewritten(c: Codec, entries: map<string, seq<Snapshot>>): Disk {
    Disk(WrittenFile(c, entries), Index(entries, SeenIn(entries)))
  }

  predicate SomeTooLong(entries: map<string, seq<Snapshot>>, keep: nat) {
    exists k :: k in entries && |entries[k]| > keep
  }

  /** The lists an operation wants to rewrite the file with; None when it rewrites nothing. */
  function Wanted(entries: map<string, seq<Snapshot>>, op: Op): Option<map<string, seq<Snapshot>>> {
    match op
    case SaveOp(_) => None
    case PruneKeyOp(cluster, key, keep) =>
      var k := EntryKey(cluster, key);
      var l := Stored(entries, k);
      if keep == 0 || Text.Blank(cluster) || key == [] || |l| <= keep then None
      else Some(entries[k := Take(Newest(l), keep)])
    case PruneOp(keep) =>
      if keep == 0 || !SomeTooLong(entries, keep) then None
      else Some(CutLists(entries, keep))
  }

  /** Nothing stands in the way of the operation but the disk itself: the record is valid and short enough,
      and so is every record that has to be written again. */
  ghost predicate Allowed(c: Codec, d: Disk, op: Op) {
    match op
    case SaveOp(s) => Fits(c, s) || (ValidSnapshot(s) && SeenOf(s) in d.index.seen)
    case _ => Wanted(d.index.entries, op).Some? ==> EntriesFit(c, Wanted(d.index.entries, op).value)
  }

  /** File and index after the operation completed. */
  ghost function Complete(c: Codec, d: Disk, op: Op): Disk
    requires Allowed(c, d, op)
  {
    match op
    case SaveOp(s) =>
      if SeenOf(s) in d.index.seen then d else Disk(d.file + Line(c, s), Add(d.index, s))
    case _ =>
      if Wanted(d.index.entries, op).None? then d else Rewritten(c, Wanted(d.index.entries, op).value)
  }

  /** Completing a prune rewrites what it wants, and is allowed exactly when that fits. */
  lemma CompletePrune(c: Codec, d: Disk, op: Op)
    requires !op.SaveOp?
    ensures match Wanted(d.index.entries, op)
            case None => Allowed(c, d, op) && Complete(c, d, op) == d
            case Some(updated) =>
              (Allowed(c, d, op) <==> EntriesFit(c, updated)) &&
              (Allowed(c, d, op) ==> Complete(c, d, op) == Rewritten(c, updated))
  {
  }

  /** Every save of a record that fits is allowed, and a prune where all records in memory fit: pruning writes none
      that was not there. */
  lemma FittingIsAllowed(c: Codec, d: Disk, t: Table, op: Op)
    requires Represents(d.index, t)
    requires match op case SaveOp(s) => Fits(c, s) case _ => EntriesFit(c, d.index.entries)
    ensures Allowed(c, d, op)
  {
    match op
    case SaveOp(_) =>
    case PruneKeyOp(cluster, key, keep) =>
      var k := EntryKey(cluster, key);
      var l := Stored(d.index.entries, k);
      if Wanted(d.index.entries, op).Some? {
        assert InTable(l, k, t);
        CutFits(c, l, keep);
      }
    case PruneOp(keep) =>
      forall k | k in d.index.entries ensures AllFit(c, CutList(d.index.entries[k], keep)) {
        assert InTable(d.index.entries[k], k, t);
        CutFits(c, d.index.entries[k], keep);
      }
  }

  lemma CutFits(c: Codec, l: seq<Snapshot>, keep: nat)
    requires AllFit(c, l) && Distinct(l)
    ensures AllFit(c, Take(Newest(l), keep)) && AllFit(c, CutList(l, keep))
  {
    NewestSorts(l);
    forall i | 0 <= i < |Newest(l)| ensures Fits(c, Newest(l)[i]) {
      assert Newest(l)[i] in Newest(l);
      var j :| 0 <= j < |l| && l[j] == Newest(l)[i];
    }
  }

  /** What the operation means for the table. */
  ghost function Meaning(t: Table, op: Op): Table {
    match op
    case SaveOp(s) => Insert(t, s)
    case PruneKeyOp(cluster, key, keep) => PruneKey(t, cluster, key, keep)
    case PruneOp(keep) => Prune(t, keep)
  }

  lemma SeenInMeans(entries: map<string, seq<Snapshot>>, t: Table)
    requires Represents(Index(entries, SeenKeys(t)), t)
    ensures SeenIn(entries) == SeenKeys(t)
  {
    forall x | x in SeenIn(entries) ensures x in SeenKeys(t) {
      var k, i :| k in entries && 0 <= i < |entries[k]| && entries[k][i].entry.modRevision >= 0
                  && x == SeenKey(entries[k][i].cluster, entries[k][i].entry.key, entries[k][i].entry.modRevision);
      assert InTable(entries[k], k, t);
      assert IdOf(entries[k][i]) in t;
    }
    forall x | x in SeenKeys(t) ensures x in SeenIn(entries) {
      var id :| id in t && id.revision >= 0 && x == SeenKey(id.cluster, id.key, id.revision);
      var k := KeyOf(t[id]);
      assert t[id] in entries[k];
      var i :| 0 <= i < |entries[k]| && entries[k][i] == t[id];
    }
  }

  lemma SortedKeys(entries: map<string, seq<Snapshot>>)
    ensures AllKeys(entries, SortedText(entries.Keys))
    ensures forall i :: 0 <= i < |SortedText(entries.Keys)| ==> SortedText(entries.Keys)[i] in entries
  {
    TextLessIsOrder();
    var keys := SortedText(entries.Keys);
    forall i, j | 0 <= i < j < |keys| ensures keys[i] != keys[j] {
      assert TextLess(keys[i], keys[j]);
    }
    assert forall i :: 0 <= i < |keys| ==> keys[i] in keys;
  }

  lemma {:induction false} FlattenFits(c: Codec, entries: map<string, seq<Snapshot>>, keys: seq<string>)
    requires EntriesFit(c, entries) && forall i :: 0 <= i < |keys| ==> keys[i] in entries
    ensures AllFit(c, Flatten(entries, keys))
  {
    if keys != [] {
      FlattenFits(c, entries, keys[1..]);
    }
  }

  /** A rewritten file reopens to exactly the lists it was written from. */
  lemma RewrittenIsSound(c: Codec, entries: map<string, seq<Snapshot>>, u: Table)
    requires Lawful(c) && Represents(Index(entries, SeenKeys(u)), u) && EntriesFit(c, entries)
    ensures Sound(c, Rewritten(c, entries), u)
  {
    var keys := SortedText(entries.Keys);
    SortedKeys(entries);
    FlattenFits(c, entries, keys);
    RewriteLoads(entries, keys, u);
    SeenInMeans(entries, u);
    LoadsWhole(c, Flatten(entries, keys));
  }

  lemma LoadsWhole(c: Codec, log: seq<Snapshot>)
    requires Lawful(c) && AllFit(c, log)
    ensures AllValid(log) && Reopen(c, Encode(c, log)) == Opened(Encode(c, log), AddAll(EMPTY, log))
  {
    LoadLog(c, log, [], EMPTY);
    assert Encode(c, log) + [] == Encode(c, log);
    assert Encode(c, log)[..|Encode(c, log)|] == Encode(c, log);
  }

  lemma LoadRecord(c: Codec, s: Snapshot, ix: Index)
    requires Lawful(c) && Fits(c, s)
    ensures Load(c, Line(c, s), ix) == Loaded(Add(ix, s), |Line(c, s)|)
  {
    assert Line(c, s) + [] == Line(c, s);
    LoadStep(c, s, [], ix);
    LoadNothing(c, [], Add(ix, s));
  }

  lemma AppendedIsSound(c: Codec, d: Disk, t: Table, s: Snapshot)
    requires Lawful(c) && Sound(c, d, t) && Fits(c, s)
    ensures Sound(c, Disk(d.file + Line(c, s), Add(d.index, s)), Insert(t, s))
  {
    SoundLoads(c, d, t);
    LoadAppend(c, d.file, Line(c, s), EMPTY, d.index);
    LoadRecord(c, s, d.index);
    LoadedReopens(c, d.file + Line(c, s), Add(d.index, s));
    AddRepresents(d.index, t, s);
  }

  lemma PruneWanted(d: Disk, t: Table, op: Op)
    requires Represents(d.index, t) && !op.SaveOp?
    ensures match Wanted(d.index.entries, op)
            case None => Meaning(t, op) == t
            case Some(updated) => Represents(Index(updated, SeenKeys(Meaning(t, op))), Meaning(t, op))
  {
    match op
    case PruneKeyOp(cluster, key, keep) => PruneKeyWanted(d, t, cluster, key, keep);
    case PruneOp(keep) => PruneAllWanted(d, t, keep);
  }

  lemma PruneKeyWanted(d: Disk, t: Table, cluster: string, key: Bytes, keep: nat)
    requires Represents(d.index, t)
    ensures var u := PruneKey(t, cluster, key, keep);
            match Wanted(d.index.entries, PruneKeyOp(cluster, key, keep))
            case None => u == t
            case Some(updated) => Represents(Index(updated, SeenKeys(u)), u)
  {
    var k := EntryKey(cluster, key);
    var l := Stored(d.index.entries, k);
    if keep == 0 || Text.Blank(cluster) || key == [] {
      NothingToPrune(d.index, t, cluster, key, keep);
    } else {
      assert l != [] ==> InTable(l, k, t);
      KeyRevisions(d.index, t, cluster, key);
      ListSize(l);
      if |l| <= keep {
        SmallKeyUntouched(t, cluster, key, keep);
      } else {
        NewestSorts(l);
        CutKey(d.index.entries, t, cluster, key, keep, Newest(l));
      }
    }
  }

  lemma PruneAllWanted(d: Disk, t: Table, keep: nat)
    requires Represents(d.index, t)
    ensures var u := Prune(t, keep);
            match Wanted(d.index.entries, PruneOp(keep))
            case None => u == t
            case Some(updated) => Represents(Index(updated, SeenKeys(u)), u)
  {
    if keep > 0 && SomeTooLong(d.index.entries, keep) {
      CutRepresents(d.index, t, keep);
    } else if keep > 0 {
      NothingCut(d.index, t, keep);
    }
  }

  lemma CutRepresents(ix: Index, t: Table, keep: nat)
    requires Represents(ix, t) && keep > 0
    ensures Represents(Index(CutLists(ix.entries, keep), SeenKeys(Prune(t, keep))), Prune(t, keep))
  {
    CutAll(ix.entries, t, keep);
  }

  lemma NothingCut(ix: Index, t: Table, keep: nat)
    requires Represents(ix, t) && keep > 0 && !SomeTooLong(ix.entries, keep)
    ensures Prune(t, keep) == t
  {
    CutRepresents(ix, t, keep);
    CutNothing(ix.entries, keep);
    NothingPruned(ix, t, Prune(t, keep));
  }

  lemma CutNothing(entries: map<string, seq<Snapshot>>, keep: nat)
    requires !SomeTooLong(entries, keep)
    ensures CutLists(entries, keep) == entries
  {
  }

  lemma NothingPruned(ix: Index, t: Table, u: Table)
    requires Represents(ix, t) && Represents(Index(ix.entries, SeenKeys(u)), u)
    ensures u == t
  {
    RepresentsUnique(ix, t, Index(ix.entries, SeenKeys(u)), u);
  }

  /** Every operation leaves a sound disk that means what the operation means. */
  lemma CompleteIsSound(c: Codec, d: Disk, t: Table, op: Op)
    requires Lawful(c) && Sound(c, d, t) && Allowed(c, d, op)
    ensures Sound(c, Complete(c, d, op), Meaning(t, op))
  {
    match op
    case SaveOp(s) =>
      SeenIffStored(d.index, t, s);
      if SeenOf(s) !in d.index.seen { AppendedIsSound(c, d, t, s); }
    case _ =>
      PruneWanted(d, t, op);
      if Wanted(d.index.entries, op).Some? {
        RewrittenIsSound(c, Wanted(d.index.entries, op).value, Meaning(t, op));
      }
  }

  // ----- Crashes -----

  /** What a crash during `op` can leave on disk: any part of the appended line, or the file on either side of
      the rename. */
  ghost predicate CrashImage(c: Codec, d: Disk, op: Op, image: Bytes) {
    || image == d.file
    || (Allowed(c, d, op) && image == Complete(c, d, op).file)
    || (op.SaveOp? && Fits(c, op.snapshot) && SeenOf(op.snapshot) !in d.index.seen
        && exists n :: 0 <= n < |Line(c, op.snapshot)| && image == d.file + Line(c, op.snapshot)[..n])
  }

  /** Every part of an appended line, from nothing to all of it, is such an image, and so is the file on either side
      of a rename: no moment of a crash is left out. */
  lemma CrashImagesCover(c: Codec, d: Disk, op: Op, n: nat)
    ensures CrashImage(c, d, op, d.file)
    ensures Allowed(c, d, op) ==> CrashImage(c, d, op, Complete(c, d, op).file)
    ensures (op.SaveOp? && Fits(c, op.snapshot) && SeenOf(op.snapshot) !in d.index.seen && n <= |Line(c, op.snapshot)|) ==>
      CrashImage(c, d, op, d.file + Line(c, op.snapshot)[..n])
  {
    if op.SaveOp? && Fits(c, op.snapshot) && n == |Line(c, op.snapshot)| {
      assert Line(c, op.snapshot)[..n] == Line(c, op.snapshot);
    }
  }

  /** A complete line that is too long, or that is not blank and does not decode to a valid record, is corruption:
      the file is refused, whatever stands around the line. */
  lemma CorruptLineIsRefused(c: Codec, before: Bytes, line: Bytes, after: Bytes, ix: Index)
    requires Load(c, before, EMPTY) == Loaded(ix, |before|)
    requires line != [] && FirstLine(line) == |line|
    requires |line| > MAX_RECORD
      || (!BlankLine(line) && (c.decode(line).None? || ToSnapshot(c.decode(line).value).None?))
    ensures Reopen(c, before + (line + after)) == Refused
  {
    LoadLine(c, line, after, ix);
    LoadAppend(c, before, line + after, EMPTY, ix);
  }

  /** Blank lines are skipped. */
  lemma BlankLineIsSkipped(c: Codec, before: Bytes, line: Bytes, ix: Index)
    requires Load(c, before, EMPTY) == Loaded(ix, |before|)
    requires line != [] && FirstLine(line) == |line| <= MAX_RECORD && BlankLine(line)
    ensures Reopen(c, before + line) == Opened(before + line, ix)
  {
    LoadLine(c, line, [], ix);
    assert line + [] == line;
    LoadNothing(c, [], ix);
    LoadAppend(c, before, line, EMPTY, ix);
    LoadedReopens(c, before + line, ix);
  }

  lemma TornAppend(c: Codec, d: Disk, t: Table, s: Snapshot, n: nat)
    requires Lawful(c) && Sound(c, d, t) && n < |Line(c, s)|
    ensures Reopen(c, d.file + Line(c, s)[..n]) == Opened(d.file, d.index)
  {
    var tail := Line(c, s)[..n];
    assert NEWLINE !in tail by {
      var body := c.encode(RecordFromSnapshot(s));
      assert forall i :: 0 <= i < n ==> tail[i] == body[i];
    }
    SoundLoads(c, d, t);
    LoadAppend(c, d.file, tail, EMPTY, d.index);
    LoadNothing(c, tail, d.index);
    assert (d.file + tail)[..|d.file|] == d.file;
  }

  /** Whatever a crash leaves reopens to exactly the file and index before the operation or exactly those the
      completed operation leaves. */
  lemma CrashRecovers(c: Codec, d: Disk, t: Table, op: Op, image: Bytes) returns (took: bool)
    requires Lawful(c) && Sound(c, d, t) && CrashImage(c, d, op, image)
    ensures took ==> Allowed(c, d, op)
    ensures var e := if took then Complete(c, d, op) else d; Reopen(c, image) == Opened(e.file, e.index)
  {
    if image == d.file { return false; }
    if Allowed(c, d, op) && image == Complete(c, d, op).file {
      CompleteIsSound(c, d, t, op);
      return true;
    }
    var s := op.snapshot;
    var n :| 0 <= n < |Line(c, s)| && image == d.file + Line(c, s)[..n];
    TornAppend(c, d, t, s, n);
    took := false;
  }

  // ----- Runs with any number of failures and crashes -----

  /** An operation completes, fails and is undone, or is cut short by a crash and a restart. */
  datatype Event = Completed(op: Op) | Failed(op: Op) | Crashed(op: Op, image: Bytes)

  ghost predicate Possible(c: Codec, d: Disk, event: Event) {
    match event
    case Completed(op) => Allowed(c, d, op)
    case Failed(_) => true
    case Crashed(op, image) => CrashImage(c, d, op, image) && Reopen(c, image).Opened?
  }

  ghost function After(c: Codec, d: Disk, event: Event): Disk
    requires Possible(c, d, event)
  {
    match event
    case Completed(op) => Complete(c, d, op)
    case Failed(_) => d
    case Crashed(_, image) => Disk(Reopen(c, image).file, Reopen(c, image).index)
  }

  ghost predicate AllPossible(c: Codec, d: Disk, events: seq<Event>)
    decreases |events|
  {
    events == [] || (Possible(c, d, events[0]) && AllPossible(c, After(c, d, events[0]), events[1..]))
  }

  ghost function AfterAll(c: Codec, d: Disk, events: seq<Event>): Disk
    requires AllPossible(c, d, events)
    decreases |events|
  {
    if events == [] then d else AfterAll(c, After(c, d, events[0]), events[1..])
  }

  /** Completing the operations in turn, and nothing else. */
  ghost predicate AllAllowed(c: Codec, d: Disk, ops: seq<Op>)
    decreases |ops|
  {
    ops == [] || (Allowed(c, d, ops[0]) && AllAllowed(c, Complete(c, d, ops[0]), ops[1..]))
  }

  ghost function CompleteAll(c: Codec, d: Disk, ops: seq<Op>): Disk
    requires AllAllowed(c, d, ops)
    decreases |ops|
  {
    if ops == [] then d else CompleteAll(c, Complete(c, d, ops[0]), ops[1..])
  }

  ghost function MeaningAll(t: Table, ops: seq<Op>): Table
    decreases |ops|
  {
    if ops == [] then t else MeaningAll(Meaning(t, ops[0]), ops[1..])
  }

  /** The operations of the events that took effect. */
  function Kept(events: seq<Event>, took: seq<bool>): seq<Op>
    requires |took| == |events|
    decreases |events|
  {
    if events == [] then []
    else (if took[0] then [events[0].op] else []) + Kept(events[1..], took[1..])
  }

  lemma EventIsAtomic(c: Codec, d: Disk, t: Table, event: Event) returns (took: bool)
    requires Lawful(c) && Sound(c, d, t) && Possible(c, d, event)
    ensures (event.Completed? ==> took) && (event.Failed? ==> !took) && (took ==> Allowed(c, d, event.op))
    ensures After(c, d, event) == if took then Complete(c, d, event.op) else d
  {
    match event
    case Completed(_) => took := true;
    case Failed(_) => took := false;
    case Crashed(op, image) => took := CrashRecovers(c, d, t, op, image);
  }

  /** With failures, and crashes at any byte of an append and on either side of any rename, file and index are
      always exactly those of the run without them in which each interrupted operation happened or did not. */
  lemma {:induction false} CrashesAreAtomic(c: Codec, d: Disk, t: Table, events: seq<Event>) returns (took: seq<bool>)
    requires Lawful(c) && Sound(c, d, t) && AllPossible(c, d, events)
    ensures |took| == |events|
    ensures forall i :: 0 <= i < |events| ==> (events[i].Completed? ==> took[i]) && (events[i].Failed? ==> !took[i])
    ensures AllAllowed(c, d, Kept(events, took))
    ensures AfterAll(c, d, events) == CompleteAll(c, d, Kept(events, took))
    ensures Sound(c, AfterAll(c, d, events), MeaningAll(t, Kept(events, took)))
    decreases |events|
  {
    if events == [] {
      took := [];
    } else {
      var first := EventIsAtomic(c, d, t, events[0]);
      var op, d' := events[0].op, After(c, d, events[0]);
      if first { CompleteIsSound(c, d, t, op); }
      var rest := CrashesAreAtomic(c, d', if first then Meaning(t, op) else t, events[1..]);
      took := [first] + rest;
      KeptFirst(events, first, rest);
      if first { FirstOp(c, d, t, op, Kept(events[1..], rest)); }
      forall i | 0 <= i < |events| ensures (events[i].Completed? ==> took[i]) && (events[i].Failed? ==> !took[i]) {
        assert i == 0 || (events[1..][i - 1] == events[i] && rest[i - 1] == took[i]);
      }
    }
  }

  lemma KeptFirst(events: seq<Event>, first: bool, rest: seq<bool>)
    requires events != [] && |rest| == |events| - 1
    ensures Kept(events, [first] + rest) == (if first then [events[0].op] + Kept(events[1..], rest) else Kept(events[1..], rest))
  {
    assert ([first] + rest)[1..] == rest;
  }

  lemma FirstOp(c: Codec, d: Disk, t: Table, op: Op, rest: seq<Op>)
    requires Allowed(c, d, op) && AllAllowed(c, Complete(c, d, op), rest)
    ensures AllAllowed(c, d, [op] + rest)
    ensures CompleteAll(c, d, [op] + rest) == CompleteAll(c, Complete(c, d, op), rest)
    ensures MeaningAll(t, [op] + rest) == MeaningAll(Meaning(t, op), rest)
  {
    assert ([op] + rest)[1..] == rest;
  }
}
