/** Bytes of the history file: appending, loading, rewriting and what a crash leaves behind. */
module HistoryLog {
  import opened Store
  import opened History
  import opened HistoryFile

  /** The JSON encoding of one record, taken as given. */
  datatype Codec = Codec(encode: Record -> Bytes, decode: Bytes -> Option<Record>)

  predicate BlankLine(line: Bytes) {
    forall i :: 0 <= i < |line| ==> 9 <= line[i] <= 13 || line[i] == 32
  }

  /** Records take one line and are read back as they were written. */
  ghost predicate Lawful(c: Codec) {
    forall r :: NEWLINE !in c.encode(r) && !BlankLine(c.encode(r)) && c.decode(c.encode(r) + [NEWLINE]) == Some(r)
  }

  function Line(c: Codec, s: Snapshot): Bytes {
    c.encode(RecordFromSnapshot(s)) + [NEWLINE]
  }

  predicate Fits(c: Codec, s: Snapshot) {
    ValidSnapshot(s) && |Line(c, s)| <= MAX_RECORD
  }

  ghost predicate AllFit(c: Codec, log: seq<Snapshot>) {
    forall i :: 0 <= i < |log| ==> Fits(c, log[i])
  }

  function Encode(c: Codec, log: seq<Snapshot>): Bytes {
    if log == [] then [] else Line(c, log[0]) + Encode(c, log[1..])
  }

  ghost predicate AllValid(log: seq<Snapshot>) {
    forall i :: 0 <= i < |log| ==> ValidSnapshot(log[i])
  }

  ghost function AddAll(ix: Index, log: seq<Snapshot>): Index
    requires AllValid(log)
    decreases |log|
  {
    if log == [] then ix else AddAll(Add(ix, log[0]), log[1..])
  }

  function InsertAll(t: Table, log: seq<Snapshot>): Table
    decreases |log|
  {
    if log == [] then t else InsertAll(Insert(t, log[0]), log[1..])
  }

  // ----- Loading -----

  /** The length of the first complete line, its newline included; 0 if there is none. */
  function FirstLine(file: Bytes): (n: nat)
    ensures n <= |file|
    ensures n == 0 <==> NEWLINE !in file
    ensures n > 0 ==> file[n - 1] == NEWLINE && NEWLINE !in file[..n - 1]
  {
    if file == [] then 0
    else if file[0] == NEWLINE then 1
    else
      var n := FirstLine(file[1..]);
      assert file == [file[0]] + file[1..];
      if n == 0 then 0 else
        assert file[..n] == [file[0]] + file[1..][..n - 1];
        n + 1
  }

  datatype Loading = Loaded(index: Index, bytes: nat) | Corrupt

  /** load: complete lines are added to the index one by one; the answer counts their bytes. */
  function Load(c: Codec, file: Bytes, ix: Index): Loading
    decreases |file|
  {
    var n := FirstLine(file);
    if n == 0 then Loaded(ix, 0)
    else if n > MAX_RECORD then Corrupt
    else if BlankLine(file[..n]) then Count(n, Load(c, file[n..], ix))
    else match c.decode(file[..n])
      case None => Corrupt
      case Some(record) =>
        match ToSnapshot(record)
        case None => Corrupt
        case Some(s) =>
          assert ValidSnapshot(s);
          Count(n, Load(c, file[n..], Add(ix, s)))
  }

  function Count(n: nat, r: Loading): Loading {
    match r case Corrupt => Corrupt case Loaded(ix, bytes) => Loaded(ix, n + bytes)
  }

  datatype Opening = Opened(file: Bytes, index: Index) | Refused

  /** Opening a file: a partial last record is cut off. */
  function Reopen(c: Codec, file: Bytes): Opening {
    match Load(c, file, EMPTY)
    case Corrupt => Refused
    case Loaded(ix, bytes) => if bytes <= |file| then Opened(file[..bytes], ix) else Refused
  }

  lemma FirstLineEndsAt(file: Bytes, m: nat)
    requires m < |file| && file[m] == NEWLINE && NEWLINE !in file[..m]
    ensures FirstLine(file) == m + 1
  {
    var n := FirstLine(file);
    assert forall i :: 0 <= i < m ==> file[i] == file[..m][i];
    assert file[m] in file;
    assert forall i :: 0 <= i < n - 1 ==> file[i] == file[..n - 1][i];
  }

  lemma LoadStep(c: Codec, s: Snapshot, rest: Bytes, ix: Index)
    requires Lawful(c) && Fits(c, s)
    ensures Load(c, Line(c, s) + rest, ix) == Count(|Line(c, s)|, Load(c, rest, Add(ix, s)))
  {
    var body, line := c.encode(RecordFromSnapshot(s)), Line(c, s);
    var file := line + rest;
    assert file[..|body|] == body;
    FirstLineEndsAt(file, |body|);
    assert file[..|line|] == line && file[|line|..] == rest;
    var i :| 0 <= i < |body| && !(9 <= body[i] <= 13 || body[i] == 32);
    assert line[i] == body[i];
    assert !BlankLine(line);
    RecordRoundTrip(s);
  }

  lemma FittingIsValid(c: Codec, log: seq<Snapshot>)
    requires AllFit(c, log)
    ensures AllValid(log)
  {
    forall i | 0 <= i < |log| ensures ValidSnapshot(log[i]) {
      assert Fits(c, log[i]);
    }
  }

  lemma AddAllCons(ix: Index, log: seq<Snapshot>)
    requires AllValid(log) && log != []
    ensures AllValid(log[1..]) && AddAll(ix, log) == AddAll(Add(ix, log[0]), log[1..])
  {
  }

  lemma LoadNothing(c: Codec, tail: Bytes, ix: Index)
    requires NEWLINE !in tail
    ensures Load(c, tail, ix) == Loaded(ix, 0)
  {
  }

  lemma LoadCons(c: Codec, log: seq<Snapshot>, ix: Index, whole: Loading, part: Loading)
    requires log != [] && AllValid(log) && AllValid(log[1..]) && whole == Count(|Line(c, log[0])|, part)
    requires part == Loaded(AddAll(Add(ix, log[0]), log[1..]), |Encode(c, log[1..])|)
    ensures whole == Loaded(AddAll(ix, log), |Encode(c, log)|)
  {
    assert |Encode(c, log)| == |Line(c, log[0])| + |Encode(c, log[1..])|;
    AddAllCons(ix, log);
  }

  /** A file of whole records, possibly followed by a piece without newline, loads to exactly those records. */
  lemma {:induction false} LoadLog(c: Codec, log: seq<Snapshot>, tail: Bytes, ix: Index)
    requires Lawful(c) && AllFit(c, log) && NEWLINE !in tail
    ensures AllValid(log)
    ensures Load(c, Encode(c, log) + tail, ix) == Loaded(AddAll(ix, log), |Encode(c, log)|)
    decreases |log|
  {
    FittingIsValid(c, log);
    if log == [] {
      assert Encode(c, log) + tail == tail;
      LoadNothing(c, tail, ix);
    } else {
      LoadLogStep(c, log, tail, ix);
    }
  }

  lemma LoadLogStep(c: Codec, log: seq<Snapshot>, tail: Bytes, ix: Index)
    requires Lawful(c) && AllFit(c, log) && NEWLINE !in tail && log != [] && AllValid(log)
    ensures Load(c, Encode(c, log) + tail, ix) == Loaded(AddAll(ix, log), |Encode(c, log)|)
    decreases |log|, 0
  {
    var s, rest := log[0], Encode(c, log[1..]) + tail;
    TailFits(c, log, tail);
    LoadLog(c, log[1..], tail, Add(ix, s));
    var whole, part := Load(c, Line(c, s) + rest, ix), Load(c, rest, Add(ix, s));
    assert whole == Count(|Line(c, s)|, part) by { LoadStep(c, s, rest, ix); }
    LoadCons(c, log, ix, whole, part);
  }

  lemma TailFits(c: Codec, log: seq<Snapshot>, tail: Bytes)
    requires AllFit(c, log) && log != []
    ensures AllFit(c, log[1..]) && Fits(c, log[0])
    ensures Encode(c, log) + tail == Line(c, log[0]) + (Encode(c, log[1..]) + tail)
  {
    assert forall i :: 0 <= i < |log[1..]| ==> log[1..][i] == log[i + 1];
  }

  lemma {:induction false} EncodeConcat(c: Codec, a: seq<Snapshot>, b: seq<Snapshot>)
    ensures Encode(c, a + b) == Encode(c, a) + Encode(c, b)
  {
    if a == [] {
      assert a + b == b;
    } else {
      assert (a + b)[1..] == a[1..] + b && (a + b)[0] == a[0];
      EncodeConcat(c, a[1..], b);
      assert Line(c, a[0]) + (Encode(c, a[1..]) + Encode(c, b)) == Encode(c, a) + Encode(c, b);
    }
  }

  lemma {:induction false} AddAllConcat(ix: Index, a: seq<Snapshot>, b: seq<Snapshot>)
    requires AllValid(a) && AllValid(b)
    ensures AllValid(a + b) && AddAll(ix, a + b) == AddAll(AddAll(ix, a), b)
    decreases |a|
  {
    if a == [] {
      assert a + b == b;
    } else {
      assert (a + b)[1..] == a[1..] + b;
      AddAllConcat(Add(ix, a[0]), a[1..], b);
    }
  }

  /** The index after any log represents the table that inserting its records gives. */
  lemma {:induction false} LogRepresents(ix: Index, t: Table, log: seq<Snapshot>)
    requires Represents(ix, t) && AllValid(log)
    ensures Represents(AddAll(ix, log), InsertAll(t, log))
    decreases |log|
  {
    if log != [] {
      AddRepresents(ix, t, log[0]);
      LogRepresents(Add(ix, log[0]), Insert(t, log[0]), log[1..]);
    }
  }

  // ----- Rewriting -----

  ghost predicate NoRepeats(keys: seq<string>) {
    forall i, j :: 0 <= i < j < |keys| ==> keys[i] != keys[j]
  }

  /** The records of a rewritten file: key by key, each key's snapshots in their order. */
  function Flatten(entries: map<string, seq<Snapshot>>, keys: seq<string>): seq<Snapshot>
    requires forall i :: 0 <= i < |keys| ==> keys[i] in entries
  {
    if keys == [] then [] else entries[keys[0]] + Flatten(entries, keys[1..])
  }

  function Restrict(entries: map<string, seq<Snapshot>>, keys: seq<string>): map<string, seq<Snapshot>> {
    map k | k in entries && k in keys :: entries[k]
  }

  ghost predicate OneKey(l: seq<Snapshot>, k: string) {
    Distinct(l) && forall i :: 0 <= i < |l| ==> ValidSnapshot(l[i]) && KeyOf(l[i]) == k
  }

  lemma OneKeySeenDistinct(l: seq<Snapshot>, k: string, i: nat, j: nat)
    requires OneKey(l, k) && i < j < |l|
    ensures SeenOf(l[i]) != SeenOf(l[j])
  {
    if SeenOf(l[i]) == SeenOf(l[j]) { SameSeenSameId(l[i], l[j]); }
  }

  lemma {:induction false} AddOneKey(ix: Index, l: seq<Snapshot>, k: string)
    requires OneKey(l, k) && l != []
    requires forall i :: 0 <= i < |l| ==> SeenOf(l[i]) !in ix.seen
    ensures AllValid(l)
    ensures AddAll(ix, l).entries == ix.entries[k := Stored(ix.entries, k) + l]
    decreases |l|
  {
    var ix1 := Add(ix, l[0]);
    AddFirst(ix, l, k);
    if |l| == 1 {
      assert l == [l[0]];
    } else {
      AddOneKeyRest(ix, l, k);
      AddOneKey(ix1, l[1..], k);
      ExtendTwice(ix.entries, k, Stored(ix.entries, k), l);
    }
  }

  lemma AddFirst(ix: Index, l: seq<Snapshot>, k: string)
    requires OneKey(l, k) && l != [] && SeenOf(l[0]) !in ix.seen
    ensures AllValid(l)
    ensures Add(ix, l[0]).entries == ix.entries[k := Stored(ix.entries, k) + [l[0]]]
    ensures |l| == 1 ==> AddAll(ix, l) == Add(ix, l[0])
    ensures |l| > 1 ==> OneKey(l[1..], k) && AllValid(l[1..]) && AddAll(ix, l) == AddAll(Add(ix, l[0]), l[1..])
  {
    if |l| == 1 {
      assert l[1..] == [];
      assert AddAll(ix, l) == AddAll(Add(ix, l[0]), []);
    }
  }

  lemma ExtendTwice(entries: map<string, seq<Snapshot>>, k: string, had: seq<Snapshot>, l: seq<Snapshot>)
    requires l != []
    ensures entries[k := had + [l[0]]][k := had + [l[0]] + l[1..]] == entries[k := had + l]
  {
    assert had + [l[0]] + l[1..] == had + l;
  }

  lemma AddOneKeyRest(ix: Index, l: seq<Snapshot>, k: string)
    requires OneKey(l, k) && |l| > 1
    requires forall i :: 0 <= i < |l| ==> SeenOf(l[i]) !in ix.seen
    ensures OneKey(l[1..], k)
    ensures forall i :: 0 <= i < |l[1..]| ==> SeenOf(l[1..][i]) !in Add(ix, l[0]).seen
  {
    forall i | 0 <= i < |l[1..]| ensures SeenOf(l[1..][i]) !in Add(ix, l[0]).seen {
      OneKeySeenDistinct(l, k, 0, i + 1);
      assert l[1..][i] == l[i + 1];
    }
  }

  lemma {:induction false} AddAllSeen(ix: Index, log: seq<Snapshot>, x: string)
    requires AllValid(log)
    ensures x in AddAll(ix, log).seen <==> x in ix.seen || exists i :: 0 <= i < |log| && x == SeenOf(log[i])
    decreases |log|
  {
    if log != [] {
      AddAllSeen(Add(ix, log[0]), log[1..], x);
      if i :| 0 <= i < |log[1..]| && x == SeenOf(log[1..][i]) { assert x == SeenOf(log[i + 1]); }
      if i :| 0 <= i < |log| && x == SeenOf(log[i]) {
        assert i == 0 || log[1..][i - 1] == log[i];
      }
    }
  }

  // ----- A rewritten file loads to the index it was written from -----

  ghost predicate Writable(entries: map<string, seq<Snapshot>>, keys: seq<string>) {
    && NoRepeats(keys)
    && forall i :: 0 <= i < |keys| ==> keys[i] in entries && entries[keys[i]] != [] && OneKey(entries[keys[i]], keys[i])
  }

  ghost predicate Unseen(ix: Index, l: seq<Snapshot>)
    requires AllValid(l)
  {
    forall i :: 0 <= i < |l| ==> SeenOf(l[i]) !in ix.seen
  }

  lemma OneKeyIsValid(l: seq<Snapshot>, k: string)
    requires OneKey(l, k)
    ensures AllValid(l)
  {
  }

  lemma OtherKeyUnseen(ix: Index, l: seq<Snapshot>, k: string, m: seq<Snapshot>, o: string)
    requires OneKey(l, k) && OneKey(m, o) && k != o && AllValid(l) && AllValid(m) && Unseen(ix, m)
    ensures Unseen(AddAll(ix, l), m)
  {
    forall i | 0 <= i < |m| ensures SeenOf(m[i]) !in AddAll(ix, l).seen {
      AddAllSeen(ix, l, SeenOf(m[i]));
      forall j | 0 <= j < |l| ensures SeenOf(m[i]) != SeenOf(l[j]) {
        SameSeenSameId(m[i], l[j]);
      }
    }
  }

  lemma {:induction false} FlattenIsValid(entries: map<string, seq<Snapshot>>, keys: seq<string>)
    requires Writable(entries, keys)
    ensures AllValid(Flatten(entries, keys))
  {
    if keys != [] {
      TailWritable(entries, keys);
      FlattenIsValid(entries, keys[1..]);
      OneKeyIsValid(entries[keys[0]], keys[0]);
    }
  }

  lemma TailWritable(entries: map<string, seq<Snapshot>>, keys: seq<string>)
    requires Writable(entries, keys) && keys != []
    ensures Writable(entries, keys[1..]) && keys[0] !in keys[1..]
    ensures forall i :: 0 <= i < |keys[1..]| ==> keys[1..][i] == keys[i + 1]
  {
  }

  lemma {:induction false} AddFlatten(ix: Index, entries: map<string, seq<Snapshot>>, keys: seq<string>)
    requires Writable(entries, keys)
    requires forall i :: 0 <= i < |keys| ==> keys[i] !in ix.entries && AllValid(entries[keys[i]]) && Unseen(ix, entries[keys[i]])
    ensures AllValid(Flatten(entries, keys))
    ensures AddAll(ix, Flatten(entries, keys)).entries == ix.entries + Restrict(entries, keys)
    decreases |keys|
  {
    FlattenIsValid(entries, keys);
    if keys != [] {
      var k, rest := keys[0], keys[1..];
      var l := entries[k];
      TailWritable(entries, keys);
      AddOneKey(ix, l, k);
      var ix1 := AddAll(ix, l);
      forall i | 0 <= i < |rest| ensures Unseen(ix1, entries[rest[i]]) && AllValid(entries[rest[i]]) && rest[i] !in ix1.entries {
        assert rest[i] == keys[i + 1];
        OtherKeyUnseen(ix, l, k, entries[rest[i]], rest[i]);
      }
      AddFlatten(ix1, entries, rest);
      AddAllConcat(ix, l, Flatten(entries, rest));
      RestrictCons(ix.entries, entries, keys);
    } else {
      assert Restrict(entries, keys) == map[];
    }
  }

  lemma RestrictCons(have: map<string, seq<Snapshot>>, entries: map<string, seq<Snapshot>>, keys: seq<string>)
    requires keys != [] && keys[0] in entries && keys[0] !in have
    ensures have[keys[0] := Stored(have, keys[0]) + entries[keys[0]]] + Restrict(entries, keys[1..])
         == have + Restrict(entries, keys)
  {
    var k := keys[0];
    assert Stored(have, k) + entries[k] == entries[k];
    assert forall x :: x in keys <==> x == k || x in keys[1..] by { assert keys == [k] + keys[1..]; }
    assert k in keys[1..] ==> Restrict(entries, keys[1..])[k] == entries[k];
  }

  lemma {:induction false} FlattenElements(entries: map<string, seq<Snapshot>>, keys: seq<string>, s: Snapshot)
    requires forall i :: 0 <= i < |keys| ==> keys[i] in entries
    ensures s in Flatten(entries, keys) <==> exists i :: 0 <= i < |keys| && s in entries[keys[i]]
  {
    if keys != [] {
      FlattenElements(entries, keys[1..], s);
      if i :| 0 <= i < |keys[1..]| && s in entries[keys[1..][i]] { assert s in entries[keys[i + 1]]; }
      if i :| 0 <= i < |keys| && s in entries[keys[i]] {
        assert i == 0 || keys[1..][i - 1] == keys[i];
      }
    }
  }

  /** The keys of `entries`, each once. */
  ghost predicate AllKeys(entries: map<string, seq<Snapshot>>, keys: seq<string>) {
    NoRepeats(keys) && forall k :: k in keys <==> k in entries
  }

  lemma RewriteSeen(entries: map<string, seq<Snapshot>>, keys: seq<string>, t: Table)
    requires Represents(Index(entries, SeenKeys(t)), t) && AllKeys(entries, keys)
    requires AllValid(Flatten(entries, keys))
    ensures AddAll(EMPTY, Flatten(entries, keys)).seen == SeenKeys(t)
  {
    var log := Flatten(entries, keys);
    forall x ensures x in AddAll(EMPTY, log).seen <==> x in SeenKeys(t) {
      AddAllSeen(EMPTY, log, x);
      if i :| 0 <= i < |log| && x == SeenOf(log[i]) {
        FlattenElements(entries, keys, log[i]);
        var j :| 0 <= j < |keys| && log[i] in entries[keys[j]];
        assert InTable(entries[keys[j]], keys[j], t);
        assert IdOf(log[i]) in t;
      }
      if x in SeenKeys(t) {
        var id :| id in t && id.revision >= 0 && x == SeenKey(id.cluster, id.key, id.revision);
        var k := KeyOf(t[id]);
        assert k in keys && t[id] in entries[k];
        FlattenElements(entries, keys, t[id]);
        assert SeenOf(t[id]) == x;
      }
    }
  }

  /** Writing every key's list in any key order and loading the result gives the index back. */
  lemma RewriteLoads(entries: map<string, seq<Snapshot>>, keys: seq<string>, t: Table)
    requires Represents(Index(entries, SeenKeys(t)), t) && AllKeys(entries, keys)
    ensures AllValid(Flatten(entries, keys))
    ensures AddAll(EMPTY, Flatten(entries, keys)) == Index(entries, SeenKeys(t))
  {
    KeysWritable(entries, keys, t);
    AddFlatten(EMPTY, entries, keys);
    RestrictAll(entries, keys);
    RewriteSeen(entries, keys, t);
  }

  lemma RestrictAll(entries: map<string, seq<Snapshot>>, keys: seq<string>)
    requires AllKeys(entries, keys)
    ensures EMPTY.entries + Restrict(entries, keys) == entries
  {
  }

  lemma KeysWritable(entries: map<string, seq<Snapshot>>, keys: seq<string>, t: Table)
    requires Represents(Index(entries, SeenKeys(t)), t) && AllKeys(entries, keys)
    ensures Writable(entries, keys)
    ensures forall i :: 0 <= i < |keys| ==> AllValid(entries[keys[i]]) && Unseen(EMPTY, entries[keys[i]])
  {
    forall i | 0 <= i < |keys|
      ensures keys[i] in entries && entries[keys[i]] != [] && OneKey(entries[keys[i]], keys[i]) && AllValid(entries[keys[i]])
    {
      assert keys[i] in keys;
      assert InTable(entries[keys[i]], keys[i], t);
      OneKeyIsValid(entries[keys[i]], keys[i]);
    }
  }

  // ----- Pruning the index -----

  ghost predicate KeepsWhere(l: seq<Snapshot>, kept: seq<Snapshot>, t: Table) {
    && kept != [] && Distinct(kept)
    && forall s :: s in kept <==> s in l && IdOf(s) in t
  }

  /** Dropping from every list what a smaller table lacks represents the smaller table. */
  lemma FilterRepresents(entries: map<string, seq<Snapshot>>, t: Table, updated: map<string, seq<Snapshot>>, u: Table)
    requires Represents(Index(entries, SeenKeys(t)), t)
    requires forall id :: id in u ==> id in t && u[id] == t[id]
    requires updated.Keys == entries.Keys
    requires forall k :: k in entries ==> KeepsWhere(entries[k], updated[k], u)
    ensures Represents(Index(updated, SeenKeys(u)), u)
  {
    forall k | k in updated ensures InTable(updated[k], k, u) {
      var l, kept := entries[k], updated[k];
      assert InTable(l, k, t) && KeepsWhere(l, kept, u);
      forall i | 0 <= i < |kept| ensures ValidSnapshot(kept[i]) && KeyOf(kept[i]) == k && IdOf(kept[i]) in u && u[IdOf(kept[i])] == kept[i] {
        assert kept[i] in kept;
        var j :| 0 <= j < |l| && l[j] == kept[i];
      }
    }
    forall id | id in u ensures u[id] in updated[KeyOf(u[id])] {
      assert t[id] in entries[KeyOf(t[id])];
      assert KeepsWhere(entries[KeyOf(t[id])], updated[KeyOf(t[id])], u);
    }
  }
}
