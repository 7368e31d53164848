/** The audit log of the file backend (internal/store/audit_file.go) and its paging by (time, ID) cursor
    (internal/app/server.go, handleListAudit). */
module Audit {
  import opened Store
  import opened Ordering
  import opened Lex
  import opened Text
  import opened HistoryLog
  import HistoryFile

  /** Times are in nanoseconds; the zero time stands for none. */
  datatype Event = Event(
    id: string, at: int, actor: string, actorType: string, clientIp: string, action: string, resourceType: string,
    clusterId: string, clusterName: string, target: string, detail: string, result: string)

  const MAX_RECORD := 16 * 1024

  /** validateAuditEvent. */
  predicate ValidEvent(e: Event) {
    && Utf8Length(e.id) == 32 && e.at != 0
    && Trim(e.actor) != "" && Trim(e.action) != "" && Trim(e.resourceType) != "" && Trim(e.target) != ""
    && Trim(e.result) != ""
    && Utf8Length(e.actor) <= 200 && Utf8Length(e.actorType) <= 40 && Utf8Length(e.clientIp) <= 80
    && Utf8Length(e.action) <= 80 && Utf8Length(e.resourceType) <= 40 && Utf8Length(e.clusterId) <= 64
    && Utf8Length(e.clusterName) <= 200 && Utf8Length(e.target) <= 2048 && Utf8Length(e.detail) <= 2048
    && Utf8Length(e.result) <= 32
  }

  datatype Position = Position(at: int, id: string)

  /** `found` is the text search; an empty string or a missing time does not filter. */
  datatype Query = Query(
    since: Option<int>, until: Option<int>, clusterId: string, actor: string, actorType: string, action: string,
    found: Event -> bool, cursor: Option<Position>)

  datatype Page = Page(events: seq<Event>, hasMore: bool)

  function PositionOf(e: Event): Position { Position(e.at, e.id) }

  /** The order of a page: later first, then the larger ID. */
  predicate Before(a: Position, b: Position) {
    a.at > b.at || (a.at == b.at && TextLess(b.id, a.id))
  }

  lemma BeforeIsOrder()
    ensures StrictOrder(Before)
  {
    TextLessIsOrder();
  }

  /** auditMatches. */
  predicate Matches(e: Event, q: Query) {
    && (q.since.Some? ==> e.at >= q.since.value)
    && (q.until.Some? ==> e.at < q.until.value)
    && (q.cursor.Some? ==>
          && e.at <= q.cursor.value.at
          && !(e.at == q.cursor.value.at && (q.cursor.value.id == "" || !TextLess(e.id, q.cursor.value.id))))
    && (q.clusterId != "" ==> e.clusterId == q.clusterId)
    && (q.actor != "" ==> e.actor == q.actor)
    && (q.actorType != "" ==> e.actorType == q.actorType)
    && (q.action != "" ==> e.action == q.action)
    && q.found(e)
  }

  /** A cursor adds one condition to a query: strictly after that position in page order. */
  lemma CursorMeansAfter(e: Event, q: Query, c: Position)
    ensures Matches(e, q.(cursor := Some(c))) <==> Matches(e, q.(cursor := None)) && Before(c, PositionOf(e))
  {
  }

  /** What each filter adds to a query, and that it adds nothing else. */
  lemma FiltersMean(e: Event, q: Query)
    ensures q.actor != "" ==> (Matches(e, q) <==> e.actor == q.actor && Matches(e, q.(actor := "")))
    ensures q.actorType != "" ==> (Matches(e, q) <==> e.actorType == q.actorType && Matches(e, q.(actorType := "")))
    ensures q.action != "" ==> (Matches(e, q) <==> e.action == q.action && Matches(e, q.(action := "")))
    ensures q.clusterId != "" ==> (Matches(e, q) <==> e.clusterId == q.clusterId && Matches(e, q.(clusterId := "")))
    ensures q.since.Some? ==> (Matches(e, q) <==> e.at >= q.since.value && Matches(e, q.(since := None)))
    ensures q.until.Some? ==> (Matches(e, q) <==> e.at < q.until.value && Matches(e, q.(until := None)))
    ensures Matches(e, q) <==> q.found(e) && Matches(e, q.(found := x => true))
  {
  }

  /** A query without filters matches everything. */
  lemma NoFilters(e: Event)
    ensures Matches(e, Query(None, None, "", "", "", "", x => true, None))
  {
  }

  /** In page order events are listed later first, those of one time by descending identifier. */
  lemma PageOrder(m: seq<Event>, i: nat, j: nat)
    requires InOrder(m) && i < j < |m|
    ensures m[i].at >= m[j].at && (m[i].at == m[j].at ==> TextLess(m[j].id, m[i].id))
  {
    assert Before(PositionOf(m[i]), PositionOf(m[j]));
  }

  ghost predicate UniqueIds(events: seq<Event>) {
    forall i, j :: 0 <= i < j < |events| ==> events[i].id != events[j].id
  }

  function Positions(events: seq<Event>): (p: seq<Position>)
    ensures |p| == |events| && forall i :: 0 <= i < |events| ==> p[i] == PositionOf(events[i])
  {
    seq(|events|, i requires 0 <= i < |events| => PositionOf(events[i]))
  }

  function MatchingPositions(log: seq<Event>, q: Query): set<Position> {
    set e | e in log && Matches(e, q) :: PositionOf(e)
  }

  ghost function Sorted(s: set<Position>): (l: seq<Position>)
    ensures |l| == |s| && SameElements(l, s) && Ascending(l, Before)
  {
    BeforeIsOrder();
    Listing(s, Before)
  }

  /** The first `limit` matching events in page order, and whether there are more. */
  ghost predicate IsPage(page: Page, log: seq<Event>, q: Query, limit: int) {
    var all := Sorted(MatchingPositions(log, q));
    && limit > 0
    && Positions(page.events) == Take(all, limit)
    && page.hasMore == (|all| > limit)
    && forall i :: 0 <= i < |page.events| ==> page.events[i] in log && Matches(page.events[i], q)
  }

  // ----- One query -----

  ghost predicate InOrder(m: seq<Event>) {
    forall i, j :: 0 <= i < j < |m| ==> Before(PositionOf(m[i]), PositionOf(m[j]))
  }

  /** Sorted, whatever the identifiers: nothing comes strictly before something listed earlier. */
  ghost predicate NotAfter(m: seq<Event>) {
    forall i, j :: 0 <= i < j < |m| ==> !Before(PositionOf(m[j]), PositionOf(m[i]))
  }

  lemma PlacedInOrder(m: seq<Event>, p: nat, e: Event)
    requires NotAfter(m) && p <= |m|
    requires forall i :: 0 <= i < p ==> Before(PositionOf(m[i]), PositionOf(e))
    requires p < |m| ==> !Before(PositionOf(m[p]), PositionOf(e))
    ensures NotAfter(m[..p] + [e] + m[p..])
  {
    BeforeIsOrder();
    var r := m[..p] + [e] + m[p..];
    forall i | p <= i < |m| ensures !Before(PositionOf(m[i]), PositionOf(e)) {
      assert i == p || !Before(PositionOf(m[i]), PositionOf(m[p]));
    }
    forall i, j | 0 <= i < j < |r| ensures !Before(PositionOf(r[j]), PositionOf(r[i])) {
      assert r[i] == if i < p then m[i] else if i == p then e else m[i - 1];
      assert r[j] == if j < p then m[j] else if j == p then e else m[j - 1];
    }
  }

  method InsertEvent(m: seq<Event>, e: Event) returns (r: seq<Event>)
    requires NotAfter(m)
    ensures NotAfter(r) && multiset(r) == multiset(m) + multiset{e}
  {
    var p := 0;
    while p < |m| && Before(PositionOf(m[p]), PositionOf(e))
      invariant 0 <= p <= |m|
      invariant forall i :: 0 <= i < p ==> Before(PositionOf(m[i]), PositionOf(e))
    {
      p := p + 1;
    }
    r := m[..p] + [e] + m[p..];
    PlacedInOrder(m, p, e);
    assert m == m[..p] + m[p..];
  }

  method SortEvents(l: seq<Event>) returns (m: seq<Event>)
    ensures NotAfter(m) && multiset(m) == multiset(l)
  {
    m := [];
    for n := 0 to |l|
      invariant NotAfter(m) && multiset(m) == multiset(l[..n])
    {
      m := InsertEvent(m, l[n]);
      assert l[..n + 1] == l[..n] + [l[n]];
    }
    assert l[..|l|] == l;
  }

  /** The matching events, the last one of the log first. */
  function Matching(log: seq<Event>, q: Query): (l: seq<Event>)
    decreases |log|
  {
    if log == [] then []
    else
      var n := |log| - 1;
      (if Matches(log[n], q) then [log[n]] else []) + Matching(log[..n], q)
  }

  lemma MatchingLast(log: seq<Event>, n: nat, q: Query, found: seq<Event>)
    requires n < |log|
    ensures found + Matching(log[..n + 1], q) == (if Matches(log[n], q) then found + [log[n]] else found) + Matching(log[..n], q)
  {
    assert log[..n + 1][..n] == log[..n];
  }

  /** The loop over the log from its end. */
  method Collect(log: seq<Event>, q: Query) returns (events: seq<Event>)
    ensures events == Matching(log, q)
  {
    events := [];
    var index := |log|;
    assert log[..|log|] == log;
    while index > 0
      invariant 0 <= index <= |log|
      invariant Matching(log, q) == events + Matching(log[..index], q)
    {
      index := index - 1;
      MatchingLast(log, index, q, events);
      if Matches(log[index], q) { events := events + [log[index]]; }
    }
  }

  lemma {:induction false} MatchingMembers(log: seq<Event>, q: Query)
    ensures forall e :: e in Matching(log, q) <==> e in log && Matches(e, q)
    decreases |log|
  {
    if log != [] {
      var n := |log| - 1;
      MatchingMembers(log[..n], q);
      assert log == log[..n] + [log[n]];
    }
  }

  lemma NewId(rest: seq<Event>, log: seq<Event>, n: nat)
    requires UniqueIds(log) && n < |log| && forall e :: e in rest ==> e in log[..n]
    ensures forall i :: 0 <= i < |rest| ==> rest[i].id != log[n].id
  {
    forall i | 0 <= i < |rest| ensures rest[i].id != log[n].id {
      assert rest[i] in log[..n];
    }
  }

  lemma {:induction false} MatchingUnique(log: seq<Event>, q: Query)
    requires UniqueIds(log)
    ensures UniqueIds(Matching(log, q))
    decreases |log|
  {
    if log != [] {
      var n := |log| - 1;
      MatchingUnique(log[..n], q);
      MatchingMembers(log[..n], q);
      NewId(Matching(log[..n], q), log, n);
    }
  }

  /** Sorting events with different identifiers leaves the order no choice. */
  lemma SortedIsInOrder(m: seq<Event>, l: seq<Event>)
    requires NotAfter(m) && multiset(m) == multiset(l) && UniqueIds(l)
    ensures InOrder(m) && forall e :: e in m <==> e in l
  {
    BeforeIsOrder();
    forall e ensures e in m <==> e in l { assert e in multiset(m) <==> e in multiset(l); }
    forall i, j | 0 <= i < j < |m| ensures Before(PositionOf(m[i]), PositionOf(m[j])) {
      OnceEach(m, l, i, j);
    }
  }

  lemma OnceEach(m: seq<Event>, l: seq<Event>, i: nat, j: nat)
    requires multiset(m) == multiset(l) && UniqueIds(l) && i < j < |m|
    ensures m[i].id != m[j].id
  {
    assert m[i] in multiset(l) && m[j] in multiset(l);
    if m[i].id == m[j].id {
      SameId(l, m[i], m[j]);
      Twice(m, i, j);
      OnlyOnce(l, m[i]);
    }
  }

  lemma Twice(m: seq<Event>, i: nat, j: nat)
    requires i < j < |m| && m[i] == m[j]
    ensures multiset(m)[m[i]] >= 2
  {
    assert m == m[..j] + m[j..];
    assert m[i] == m[..j][i] && m[j] == m[j..][0];
    assert m[i] in multiset(m[..j]) && m[i] in multiset(m[j..]);
  }

  lemma {:induction false} OnlyOnce(l: seq<Event>, e: Event)
    requires UniqueIds(l)
    ensures multiset(l)[e] <= 1
    decreases |l|
  {
    if l != [] {
      var n := |l| - 1;
      OnlyOnce(l[..n], e);
      assert l == l[..n] + [l[n]];
      if e == l[n] {
        assert e !in l[..n];
        assert multiset(l[..n])[e] == 0;
      }
    }
  }

  lemma SortedIsListing(m: seq<Event>, log: seq<Event>, q: Query)
    requires InOrder(m) && forall e :: e in m <==> e in log && Matches(e, q)
    ensures Positions(m) == Sorted(MatchingPositions(log, q))
  {
    BeforeIsOrder();
    var p, s := Positions(m), MatchingPositions(log, q);
    forall x | x in p ensures x in s {
      var i :| 0 <= i < |p| && p[i] == x;
      assert m[i] in m;
    }
    forall x | x in s ensures x in p {
      var e :| e in log && Matches(e, q) && PositionOf(e) == x;
      assert e in m;
      var i :| 0 <= i < |m| && m[i] == e;
      assert p[i] == x;
    }
    ListingUnique(p, s, Before);
  }

  lemma CutIsPage(m: seq<Event>, log: seq<Event>, q: Query, limit: nat)
    requires InOrder(m) && (forall e :: e in m <==> e in log && Matches(e, q)) && limit > 0
    ensures IsPage(Page(Take(m, limit), |m| > limit), log, q, limit)
  {
    SortedIsListing(m, log, q);
    CutPositions(m, limit);
    CutMatches(m, log, q, limit);
  }

  lemma CutMatches(m: seq<Event>, log: seq<Event>, q: Query, limit: nat)
    requires forall e :: e in m ==> e in log && Matches(e, q)
    ensures forall i :: 0 <= i < |Take(m, limit)| ==> Take(m, limit)[i] in log && Matches(Take(m, limit)[i], q)
  {
    forall i | 0 <= i < |Take(m, limit)| ensures Take(m, limit)[i] in m {
      assert m[i] in m;
    }
  }

  lemma CutPositions(m: seq<Event>, limit: nat)
    ensures Positions(Take(m, limit)) == Take(Positions(m), limit)
  {
  }

  /** The beginning of the matching events in some sorted order, and whether there are more. */
  ghost predicate IsSortedPage(page: Page, log: seq<Event>, q: Query, limit: nat) {
    exists m :: NotAfter(m) && multiset(m) == multiset(Matching(log, q)) && page == Page(Take(m, limit), |m| > limit)
  }

  /** With different identifiers that order is the page order. */
  lemma UniquePage(page: Page, log: seq<Event>, q: Query, limit: nat)
    requires IsSortedPage(page, log, q, limit) && UniqueIds(log) && limit > 0
    ensures IsPage(page, log, q, limit)
  {
    var m :| NotAfter(m) && multiset(m) == multiset(Matching(log, q)) && page == Page(Take(m, limit), |m| > limit);
    MatchingMembers(log, q);
    MatchingUnique(log, q);
    SortedIsInOrder(m, Matching(log, q));
    CutIsPage(m, log, q, limit);
  }

  function KeptSince(events: seq<Event>, cutoff: int): seq<Event>
    decreases |events|
  {
    if events == [] then []
    else
      var n := |events| - 1;
      KeptSince(events[..n], cutoff) + (if events[n].at >= cutoff then [events[n]] else [])
  }

  /** Pruning keeps exactly the events not before the cutoff, in their order. */
  lemma {:induction false} KeptMembers(events: seq<Event>, cutoff: int)
    ensures forall e :: e in KeptSince(events, cutoff) <==> e in events && e.at >= cutoff
    decreases |events|
  {
    if events != [] {
      var n := |events| - 1;
      KeptMembers(events[..n], cutoff);
      assert events == events[..n] + [events[n]];
    }
  }

  lemma {:induction false} KeptAll(events: seq<Event>, cutoff: int)
    ensures |KeptSince(events, cutoff)| <= |events|
    ensures |KeptSince(events, cutoff)| == |events| ==> KeptSince(events, cutoff) == events
    decreases |events|
  {
    if events != [] {
      var n := |events| - 1;
      KeptAll(events[..n], cutoff);
      assert events == events[..n] + [events[n]];
    }
  }

  /** Prunes keep identifiers different. */
  lemma {:induction false} KeptUnique(events: seq<Event>, cutoff: int)
    requires UniqueIds(events)
    ensures UniqueIds(KeptSince(events, cutoff))
    decreases |events|
  {
    if events != [] {
      var n := |events| - 1;
      KeptUnique(events[..n], cutoff);
      KeptMembers(events[..n], cutoff);
      NewId(KeptSince(events[..n], cutoff), events, n);
    }
  }

  /** The file that holds the records of `events`, one line each. */
  function Lines(line: Event -> Bytes, events: seq<Event>): Bytes
    decreases |events|
  {
    if events == [] then [] else line(events[0]) + Lines(line, events[1..])
  }

  lemma {:induction false} LinesLast(line: Event -> Bytes, events: seq<Event>, e: Event)
    ensures Lines(line, events + [e]) == Lines(line, events) + line(e)
    decreases |events|
  {
    if events == [] {
      assert ([] + [e])[1..] == [] && Lines(line, []) == [];
      assert Lines(line, [] + [e]) == line(e) + [];
    } else {
      LinesLast(line, events[1..], e);
      LinesCons(line, events, e);
    }
  }

  lemma LinesCons(line: Event -> Bytes, events: seq<Event>, e: Event)
    requires events != [] && Lines(line, events[1..] + [e]) == Lines(line, events[1..]) + line(e)
    ensures Lines(line, events + [e]) == Lines(line, events) + line(e)
  {
    assert (events + [e])[1..] == events[1..] + [e] && (events + [e])[0] == events[0];
    assert line(events[0]) + (Lines(line, events[1..]) + line(e)) == line(events[0]) + Lines(line, events[1..]) + line(e);
  }

  /** A record is one line that is not blank, short enough and read back as it was written. */
  ghost predicate ReadsBack(line: Event -> Bytes, parse: Bytes -> Option<Event>, e: Event) {
    && |line(e)| <= MAX_RECORD && FirstLine(line(e)) == |line(e)| && !BlankLine(line(e)) && parse(line(e)) == Some(e)
  }

  datatype Reading = Read(events: seq<Event>, bytes: nat) | Unreadable

  /** load: complete lines are read one by one, a torn last line is left out; a line that is too long or cannot be
      read as a valid event is refused. */
  function ReadEvents(parse: Bytes -> Option<Event>, file: Bytes): Reading
    decreases |file|
  {
    var n := FirstLine(file);
    if n == 0 then Read([], 0)
    else if n > MAX_RECORD then Unreadable
    else if BlankLine(file[..n]) then After([], n, ReadEvents(parse, file[n..]))
    else match parse(file[..n])
      case None => Unreadable
      case Some(e) => if ValidEvent(e) then After([e], n, ReadEvents(parse, file[n..])) else Unreadable
  }

  function After(events: seq<Event>, bytes: nat, r: Reading): Reading {
    match r case Unreadable => Unreadable case Read(rest, more) => Read(events + rest, bytes + more)
  }

  lemma ReadLine(line: Event -> Bytes, parse: Bytes -> Option<Event>, e: Event, file: Bytes, rest: Bytes)
    requires ReadsBack(line, parse, e) && ValidEvent(e) && file == line(e) + rest
    ensures ReadEvents(parse, file) == After([e], |line(e)|, ReadEvents(parse, rest))
  {
    var data := line(e);
    if data != [] {
      FirstLineAt(data, rest);
      assert file[..|data|] == data && file[|data|..] == rest;
    }
  }

  lemma FirstLineAt(data: Bytes, rest: Bytes)
    requires data != [] && FirstLine(data) == |data|
    ensures FirstLine(data + rest) == |data|
  {
    assert (data + rest)[..|data| - 1] == data[..|data| - 1];
    FirstLineEndsAt(data + rest, |data| - 1);
  }

  ghost predicate Reads(line: Event -> Bytes, parse: Bytes -> Option<Event>, events: seq<Event>, torn: Bytes) {
    ReadEvents(parse, Lines(line, events) + torn) == Read(events, |Lines(line, events)|)
  }

  lemma ReadsNothing(line: Event -> Bytes, parse: Bytes -> Option<Event>, torn: Bytes)
    requires HistoryFile.NEWLINE !in torn
    ensures Reads(line, parse, [], torn)
  {
    assert Lines(line, []) + torn == torn;
  }

  lemma ReadsOneMore(line: Event -> Bytes, parse: Bytes -> Option<Event>, events: seq<Event>, torn: Bytes)
    requires events != [] && ReadsBack(line, parse, events[0]) && ValidEvent(events[0])
    requires Reads(line, parse, events[1..], torn)
    ensures Reads(line, parse, events, torn)
  {
    RecordFirst(line, events, torn);
    OneMore(line, parse, events, Lines(line, events) + torn, Lines(line, events[1..]) + torn, |Lines(line, events[1..])|);
  }

  lemma OneMore(line: Event -> Bytes, parse: Bytes -> Option<Event>, events: seq<Event>, file: Bytes, rest: Bytes, n: nat)
    requires events != [] && ReadsBack(line, parse, events[0]) && ValidEvent(events[0])
    requires file == line(events[0]) + rest && ReadEvents(parse, rest) == Read(events[1..], n)
    ensures ReadEvents(parse, file) == Read(events, |line(events[0])| + n)
  {
    ReadLine(line, parse, events[0], file, rest);
    Consed(events, |line(events[0])|, n);
  }

  ghost predicate AllReadBack(line: Event -> Bytes, parse: Bytes -> Option<Event>, events: seq<Event>) {
    forall i :: 0 <= i < |events| ==> ReadsBack(line, parse, events[i]) && ValidEvent(events[i])
  }

  /** Reading the file back, with or without a torn last record, gives exactly the events that were written, and the
      length of their records. */
  lemma {:induction false} FileReadsBack(line: Event -> Bytes, parse: Bytes -> Option<Event>, events: seq<Event>, torn: Bytes)
    requires AllReadBack(line, parse, events) && HistoryFile.NEWLINE !in torn
    ensures Reads(line, parse, events, torn)
    decreases |events|
  {
    if events == [] {
      ReadsNothing(line, parse, torn);
    } else {
      FileReadsBack(line, parse, events[1..], torn);
      ReadsOneMore(line, parse, events, torn);
    }
  }

  /** A complete line that is too long, or that is not blank and cannot be read as a valid event, makes the file
      unreadable, whatever follows it and whichever records precede it. */
  lemma {:induction false} CorruptEventIsRefused(line: Event -> Bytes, parse: Bytes -> Option<Event>, events: seq<Event>,
                                                 bad: Bytes, rest: Bytes)
    requires AllReadBack(line, parse, events)
    requires bad != [] && FirstLine(bad) == |bad|
    requires |bad| > MAX_RECORD || (!BlankLine(bad) && (parse(bad).None? || !ValidEvent(parse(bad).value)))
    ensures ReadEvents(parse, Lines(line, events) + (bad + rest)) == Unreadable
    decreases |events|
  {
    var tail := bad + rest;
    if events == [] {
      FirstLineAt(bad, rest);
      assert tail[..|bad|] == bad;
      assert Lines(line, events) + tail == tail;
    } else {
      CorruptEventIsRefused(line, parse, events[1..], bad, rest);
      RecordFirst(line, events, tail);
      ReadLine(line, parse, events[0], Lines(line, events) + tail, Lines(line, events[1..]) + tail);
    }
  }

  lemma RecordFirst(line: Event -> Bytes, events: seq<Event>, torn: Bytes)
    requires events != []
    ensures Lines(line, events) + torn == line(events[0]) + (Lines(line, events[1..]) + torn)
    ensures |Lines(line, events)| == |line(events[0])| + |Lines(line, events[1..])|
  {
    Associative(line(events[0]), Lines(line, events[1..]), torn);
  }

  lemma Associative(a: Bytes, b: Bytes, c: Bytes)
    ensures (a + b) + c == a + (b + c)
  {
  }

  lemma Consed(events: seq<Event>, m: nat, n: nat)
    requires events != []
    ensures After([events[0]], m, Read(events[1..], n)) == Read(events, m + n)
  {
    assert [events[0]] + events[1..] == events;
  }

  /** The operation took effect: it succeeded, or only closing the replaced file failed. */
  predicate Applied(r: Result<(), StoreError>) { r.Ok? || r == Err(CloseFailed) }

  class FileAudit {
    /** The encoding of one record with its newline. */
    const line: Event -> Bytes
    var isOpen: bool
    var file: Bytes
    var events: seq<Event>

    /** The file holds exactly the records of the events in memory. */
    ghost predicate Valid() reads this { file == Lines(line, events) && forall e :: e in events ==> ValidEvent(e) }

    constructor (l: Event -> Bytes)
      ensures Valid() && isOpen && events == [] && file == [] && line == l
    {
      line := l;
      isOpen, events, file := true, [], [];
    }

    /** `written` says whether the append and its sync succeed; a failed append is undone. */
    method SaveAudit(e: Event, written: bool) returns (r: Result<(), StoreError>)
      requires Valid()
      modifies this`events, this`file
      ensures Valid()
      ensures r == if !ValidEvent(e) then Err(InvalidEvent) else if |line(e)| > MAX_RECORD then Err(RecordTooLarge)
                   else if !isOpen then Err(Closed) else if !written then Err(AppendFailed) else Ok(())
      ensures events == if r.Ok? then old(events) + [e] else old(events)
      ensures file == if r.Ok? then old(file) + line(e) else old(file)
    {
      if !ValidEvent(e) { return Err(InvalidEvent); }
      var data := line(e);
      if |data| > MAX_RECORD { return Err(RecordTooLarge); }
      if !isOpen { return Err(Closed); }
      var originalSize := |file|;
      file := file + data;
      if !written {
        file := file[..originalSize];
        return Err(AppendFailed);
      }
      LinesLast(line, events, e);
      events := events + [e];
      r := Ok(());
    }

    method ListAudit(q: Query, limit: int) returns (r: Result<Page, StoreError>)
      ensures limit < 1 ==> r == Ok(Page([], false))
      ensures limit >= 1 && !isOpen ==> r == Err(Closed)
      ensures limit >= 1 && isOpen ==> r.Ok? && IsSortedPage(r.value, events, q, limit)
      ensures limit >= 1 && isOpen && UniqueIds(events) ==> IsPage(r.value, events, q, limit)
    {
      if limit < 1 { return Ok(Page([], false)); }
      if !isOpen { return Err(Closed); }
      var matching := Collect(events, q);
      var sorted := SortEvents(matching);
      var hasMore := |sorted| > limit;
      var page := Page(if hasMore then sorted[..limit] else sorted, hasMore);
      assert page == Page(Take(sorted, limit), |sorted| > limit);
      if UniqueIds(events) { UniquePage(page, events, q, limit); }
      r := Ok(page);
    }

    /** Rewrites the file with the events that are kept. Nothing changes unless the rename succeeds (`renamed`);
        closing the replaced file comes last, and when that fails everything is in place already. */
    method PruneAudit(cutoff: Option<int>, renamed: bool, closed: bool) returns (r: Result<(), StoreError>)
      requires Valid()
      modifies this`events, this`file
      ensures Valid()
      ensures cutoff.Some? && !isOpen ==> r == Err(Closed)
      ensures Applied(r) ==> events == if cutoff.Some? then KeptSince(old(events), cutoff.value) else old(events)
      ensures events == old(events) ==> file == old(file)
      ensures !Applied(r) ==> events == old(events) && cutoff.Some? && (isOpen ==> !renamed)
      ensures isOpen && renamed && closed ==> r.Ok?
    {
      if cutoff.None? { return Ok(()); }
      if !isOpen { return Err(Closed); }
      var kept: seq<Event> := [];
      for n := 0 to |events|
        invariant kept == KeptSince(events[..n], cutoff.value)
      {
        assert events[..n + 1][..n] == events[..n];
        if events[n].at >= cutoff.value { kept := kept + [events[n]]; }
      }
      assert events[..|events|] == events;
      KeptAll(events, cutoff.value);
      KeptMembers(events, cutoff.value);
      if |kept| == |events| { return Ok(()); }
      var rewritten := WriteEvents(kept);
      if !renamed { return Err(ReplaceFailed); }
      file, events := rewritten, kept;
      r := if closed then Ok(()) else Err(CloseFailed);
    }

    /** The loop of replaceLocked. */
    method WriteEvents(kept: seq<Event>) returns (lines: Bytes)
      ensures lines == Lines(line, kept)
    {
      lines := [];
      for n := 0 to |kept|
        invariant lines == Lines(line, kept[..n])
      {
        assert kept[..n + 1] == kept[..n] + [kept[n]];
        LinesLast(line, kept[..n], kept[n]);
        lines := lines + line(kept[n]);
      }
      assert kept[..|kept|] == kept;
    }
  }

  // ----- The retention of 90 days -----

  const RETENTION := 90 * 24 * 3600 * 1_000_000_000

  /** The manager never looks further back than the retention, at the time of each query. */
  function Recent(q: Query, now: int): Query {
    if q.since.None? || q.since.value < now - RETENTION then q.(since := Some(now - RETENTION)) else q
  }

  lemma RecentMeans(e: Event, q: Query, now: int)
    ensures Matches(e, Recent(q, now)) <==> Matches(e, q) && e.at >= now - RETENTION
  {
  }

  method ListRecent(backend: FileAudit?, q: Query, now: int, limit: int) returns (r: Result<Page, StoreError>)
    ensures backend == null ==> r == Err(NotSetup)
    ensures backend != null && backend.isOpen && limit >= 1 ==>
      r.Ok? && (UniqueIds(backend.events) ==> IsPage(r.value, backend.events, Recent(q, now), limit))
  {
    if backend == null { return Err(NotSetup); }
    var raised := q;
    if q.since.None? || q.since.value < now - RETENTION { raised := q.(since := Some(now - RETENTION)); }
    r := backend.ListAudit(raised, limit);
  }

  // ----- Following the cursors while the log changes -----

  /** Between two pages events may be pruned; events appended meanwhile come before the cursor in page order. */
  ghost predicate Evolves(log: seq<Event>, log': seq<Event>, cursor: Position) {
    forall e :: e in log' && e !in log ==> Before(PositionOf(e), cursor)
  }

  datatype Change = Saved(event: Event) | Pruned(cutoff: int)

  /** The log after some saves and prunes. */
  function Changed(log: seq<Event>, changes: seq<Change>): seq<Event>
    decreases |changes|
  {
    if changes == [] then log
    else Changed(match changes[0] case Saved(e) => log + [e] case Pruned(cutoff) => KeptSince(log, cutoff), changes[1..])
  }

  /** Any saves of events that come before the cursor, and any prunes, are such changes. */
  lemma {:induction false} ChangesEvolve(log: seq<Event>, changes: seq<Change>, cursor: Position)
    requires forall i :: 0 <= i < |changes| && changes[i].Saved? ==> Before(PositionOf(changes[i].event), cursor)
    ensures Evolves(log, Changed(log, changes), cursor)
    decreases |changes|
  {
    if changes != [] {
      var log' := match changes[0] case Saved(e) => log + [e] case Pruned(cutoff) => KeptSince(log, cutoff);
      if changes[0].Pruned? { KeptMembers(log, changes[0].cutoff); }
      ChangesEvolve(log', changes[1..], cursor);
    }
  }

  function LastPosition(page: Page): Position
    requires page.events != []
  {
    PositionOf(page.events[|page.events| - 1])
  }

  /** Page i is read from logs[i] at times[i], at the cursor that page i - 1 returned. */
  ghost predicate IsWalk(pages: seq<Page>, logs: seq<seq<Event>>, q: Query, times: seq<int>, limits: seq<int>) {
    && |pages| == |logs| == |limits| == |times| && pages != []
    && IsPage(pages[0], logs[0], Recent(q, times[0]), limits[0])
    && (|pages| > 1 ==>
          && pages[0].hasMore && pages[0].events != []
          && Evolves(logs[0], logs[1], LastPosition(pages[0]))
          && IsWalk(pages[1..], logs[1..], q.(cursor := Some(LastPosition(pages[0]))), times[1..], limits[1..]))
  }

  function AllEvents(pages: seq<Page>): seq<Event> {
    if pages == [] then [] else pages[0].events + AllEvents(pages[1..])
  }

  lemma WalkTail(pages: seq<Page>, logs: seq<seq<Event>>, q: Query, times: seq<int>, limits: seq<int>) returns (c: Position)
    requires IsWalk(pages, logs, q, times, limits) && |pages| > 1
    ensures pages[0].hasMore && pages[0].events != [] && c == LastPosition(pages[0])
    ensures Evolves(logs[0], logs[1..][0], c)
    ensures IsWalk(pages[1..], logs[1..], q.(cursor := Some(c)), times[1..], limits[1..])
    ensures pages[1..][|pages[1..]| - 1] == pages[|pages| - 1]
  {
    c := LastPosition(pages[0]);
  }

  /** What the query after `last` matches, the query that returned `last` matched too. */
  lemma NextQuery(q: Query, last: Event, e: Event)
    requires Matches(last, q) && Matches(e, q.(cursor := Some(PositionOf(last))))
    ensures Matches(e, q) && Before(PositionOf(last), PositionOf(e))
  {
    BeforeIsOrder();
    CursorMeansAfter(e, q, PositionOf(last));
    if q.cursor.Some? {
      CursorMeansAfter(e, q, q.cursor.value);
      CursorMeansAfter(last, q, q.cursor.value);
      assert q == q.(cursor := Some(q.cursor.value));
    } else {
      assert q == q.(cursor := None);
    }
  }

  /** A matching event of the log that this page does not return comes after its last position. */
  lemma NotYetListed(page: Page, log: seq<Event>, q: Query, limit: int, e: Event)
    requires IsPage(page, log, q, limit) && UniqueIds(log) && e in log && Matches(e, q) && e !in page.events
    ensures page.hasMore && page.events != [] && Before(LastPosition(page), PositionOf(e))
  {
    var all := Sorted(MatchingPositions(log, q));
    assert PositionOf(e) in MatchingPositions(log, q);
    assert PositionOf(e) in all;
    var i :| 0 <= i < |all| && all[i] == PositionOf(e);
    forall k | 0 <= k < |page.events| ensures all[k] != PositionOf(e) {
      assert Positions(page.events)[k] == all[k] && page.events[k] in log && page.events[k] != e;
    }
    assert Positions(page.events)[|page.events| - 1] == all[|page.events| - 1];
    assert Before(all[|page.events| - 1], all[i]);
  }

  lemma SameId(log: seq<Event>, a: Event, b: Event)
    requires UniqueIds(log) && a in log && b in log && a.id == b.id
    ensures a == b
  {
    var i :| 0 <= i < |log| && log[i] == a;
    var j :| 0 <= j < |log| && log[j] == b;
  }

  lemma PageInOrder(page: Page, log: seq<Event>, q: Query, limit: int)
    requires IsPage(page, log, q, limit)
    ensures InOrder(page.events) && forall e :: e in page.events ==> e in log && Matches(e, q)
  {
    var p := Positions(page.events);
    assert Ascending(p, Before);
    assert forall i, j :: 0 <= i < j < |p| ==> Before(p[i], p[j]);
  }

  /** The page of one query, as the caller's own query sees it. */
  lemma PageMatches(page: Page, log: seq<Event>, q: Query, now: int, limit: int)
    requires IsPage(page, log, Recent(q, now), limit)
    ensures InOrder(page.events)
    ensures forall e :: e in page.events ==> e in log && Matches(e, q) && e.at >= now - RETENTION
  {
    PageInOrder(page, log, Recent(q, now), limit);
    forall e | e in page.events ensures Matches(e, q) && e.at >= now - RETENTION { RecentMeans(e, q, now); }
  }

  lemma StillThere(log: seq<Event>, log': seq<Event>, c: Position, e: Event)
    requires Evolves(log, log', c) && e in log' && Before(c, PositionOf(e))
    ensures e in log
  {
    BeforeIsOrder();
  }

  lemma PagesJoin(page: seq<Event>, rest: seq<Event>)
    requires page != [] && InOrder(page) && InOrder(rest)
    requires forall e :: e in rest ==> Before(PositionOf(page[|page| - 1]), PositionOf(e))
    ensures InOrder(page + rest)
  {
    BeforeIsOrder();
    var l, n := page + rest, |page|;
    forall i, j | 0 <= i < j < |l| ensures Before(PositionOf(l[i]), PositionOf(l[j])) {
      if i < n <= j {
        assert rest[j - n] in rest && (i == n - 1 || Before(PositionOf(page[i]), PositionOf(page[n - 1])));
      }
    }
  }

  /** An event of a later page was in the first log, matched its query, and comes after the cursor. */
  lemma LaterEvent(page: Page, log: seq<Event>, log': seq<Event>, q: Query, now: int, limit: int, e: Event)
    requires IsPage(page, log, Recent(q, now), limit) && page.events != [] && Evolves(log, log', LastPosition(page))
    requires e in log' && Matches(e, q.(cursor := Some(LastPosition(page))))
    ensures e in log && Matches(e, q) && Before(LastPosition(page), PositionOf(e))
  {
    var last := page.events[|page.events| - 1];
    PageMatches(page, log, q, now, limit);
    assert last in page.events;
    NextQuery(q, last, e);
    StillThere(log, log', LastPosition(page), e);
  }

  /** Everything a walk lists was in the first log and matches the caller's query; the list is strictly in page
      order. The clock may do what it likes. */
  lemma {:induction false} WalkIsSound(pages: seq<Page>, logs: seq<seq<Event>>, q: Query, times: seq<int>, limits: seq<int>)
    requires IsWalk(pages, logs, q, times, limits)
    ensures forall e :: e in AllEvents(pages) ==> e in logs[0] && Matches(e, q)
    ensures InOrder(AllEvents(pages))
    decreases |pages|
  {
    PageMatches(pages[0], logs[0], q, times[0], limits[0]);
    ListedSomewhere(pages);
    if |pages| > 1 {
      var c := WalkTail(pages, logs, q, times, limits);
      var rest := AllEvents(pages[1..]);
      WalkIsSound(pages[1..], logs[1..], q.(cursor := Some(c)), times[1..], limits[1..]);
      forall e | e in rest ensures e in logs[0] && Matches(e, q) && Before(c, PositionOf(e)) {
        LaterEvent(pages[0], logs[0], logs[1..][0], q, times[0], limits[0], e);
      }
      PagesJoin(pages[0].events, rest);
    }
  }

  lemma ListedSomewhere(pages: seq<Page>)
    requires pages != []
    ensures AllEvents(pages) == pages[0].events + AllEvents(pages[1..])
    ensures |pages| == 1 ==> AllEvents(pages) == pages[0].events
  {
  }

  /** `e` is never pruned while the walk lasts, and never too old for it. */
  ghost predicate Stays(logs: seq<seq<Event>>, times: seq<int>, e: Event)
    requires |times| == |logs|
  {
    forall i :: 0 <= i < |logs| ==> UniqueIds(logs[i]) && e in logs[i] && e.at >= times[i] - RETENTION
  }

  lemma StaysInRest(logs: seq<seq<Event>>, times: seq<int>, e: Event)
    requires |times| == |logs| && Stays(logs, times, e) && logs != []
    ensures Stays(logs[1..], times[1..], e)
  {
    assert forall i :: 0 <= i < |logs[1..]| ==> logs[1..][i] == logs[i + 1] && times[1..][i] == times[i + 1];
  }

  /** A matching event that is in every log of the walk, and recent enough for every page of it, is listed by the
      time no cursor is returned. */
  lemma {:induction false} WalkIsComplete(pages: seq<Page>, logs: seq<seq<Event>>, q: Query, times: seq<int>, limits: seq<int>, e: Event)
    requires IsWalk(pages, logs, q, times, limits) && !pages[|pages| - 1].hasMore
    requires Stays(logs, times, e) && Matches(e, q)
    ensures e in AllEvents(pages)
    decreases |pages|
  {
    ListedSomewhere(pages);
    if e !in pages[0].events {
      RecentMeans(e, q, times[0]);
      NotYetListed(pages[0], logs[0], Recent(q, times[0]), limits[0], e);
      var c := WalkTail(pages, logs, q, times, limits);
      StaysInRest(logs, times, e);
      CursorAdvances(q, c, e);
      WalkIsComplete(pages[1..], logs[1..], q.(cursor := Some(c)), times[1..], limits[1..], e);
    }
  }

  lemma CursorAdvances(q: Query, c: Position, e: Event)
    requires Matches(e, q) && Before(c, PositionOf(e))
    ensures Matches(e, q.(cursor := Some(c)))
  {
    CursorMeansAfter(e, q, c);
    if q.cursor.Some? {
      CursorMeansAfter(e, q, q.cursor.value);
      assert q == q.(cursor := Some(q.cursor.value));
    } else {
      assert q == q.(cursor := None);
    }
  }

  /** Paging through a log to which newer events are appended and from which events are pruned, the retention
      moving with the clock: each matching event that was there at the start, is never pruned and stays within the
      retention appears exactly once, in order; nothing appears that was not there at the start. */
  lemma PagingTheAuditLog(pages: seq<Page>, logs: seq<seq<Event>>, q: Query, times: seq<int>, limits: seq<int>)
    requires IsWalk(pages, logs, q, times, limits) && !pages[|pages| - 1].hasMore
    requires forall i :: 0 <= i < |logs| ==> UniqueIds(logs[i])
    ensures InOrder(AllEvents(pages)) && UniqueIds(AllEvents(pages))
    ensures forall e :: e in AllEvents(pages) ==> e in logs[0] && Matches(e, q)
    ensures forall e :: e in AllEvents(pages) ==>
      && (q.actor != "" ==> e.actor == q.actor) && (q.actorType != "" ==> e.actorType == q.actorType)
      && (q.action != "" ==> e.action == q.action) && (q.clusterId != "" ==> e.clusterId == q.clusterId)
      && (q.since.Some? ==> e.at >= q.since.value) && (q.until.Some? ==> e.at < q.until.value) && q.found(e)
    ensures forall e :: Stays(logs, times, e) && Matches(e, q) ==> e in AllEvents(pages)
  {
    forall e | e in AllEvents(pages) && Matches(e, q)
      ensures (q.actor != "" ==> e.actor == q.actor) && (q.actorType != "" ==> e.actorType == q.actorType)
           && (q.action != "" ==> e.action == q.action) && (q.clusterId != "" ==> e.clusterId == q.clusterId)
           && (q.since.Some? ==> e.at >= q.since.value) && (q.until.Some? ==> e.at < q.until.value) && q.found(e)
    {
      FiltersMean(e, q);
    }
    WalkIsSound(pages, logs, q, times, limits);
    AllDifferent(AllEvents(pages), logs[0]);
    forall e | Stays(logs, times, e) && Matches(e, q) ensures e in AllEvents(pages) {
      WalkIsComplete(pages, logs, q, times, limits, e);
    }
  }

  lemma AllDifferent(all: seq<Event>, log: seq<Event>)
    requires InOrder(all) && UniqueIds(log) && forall e :: e in all ==> e in log
    ensures UniqueIds(all)
  {
    BeforeIsOrder();
    forall i, j | 0 <= i < j < |all| ensures all[i].id != all[j].id {
      assert all[i] in all && all[j] in all && Before(PositionOf(all[i]), PositionOf(all[j]));
      if all[i].id == all[j].id { SameId(log, all[i], all[j]); }
    }
  }

  ghost predicate NeverBack(times: seq<int>) {
    forall i, j :: 0 <= i < j < |times| ==> times[i] <= times[j]
  }

  lemma LaterTimes(times: seq<int>)
    requires NeverBack(times) && |times| > 1
    ensures NeverBack(times[1..]) && times[0] <= times[1..][0]
  {
    assert forall i :: 0 <= i < |times[1..]| ==> times[1..][i] == times[i + 1];
  }

  /** With a clock that does not go back, everything listed was within the retention at the first page. */
  lemma {:induction false} ListedIsRecent(pages: seq<Page>, logs: seq<seq<Event>>, q: Query, times: seq<int>, limits: seq<int>, e: Event)
    requires IsWalk(pages, logs, q, times, limits) && e in AllEvents(pages)
    requires NeverBack(times)
    ensures e.at >= times[0] - RETENTION
    decreases |pages|
  {
    ListedSomewhere(pages);
    if e in pages[0].events {
      PageMatches(pages[0], logs[0], q, times[0], limits[0]);
    } else {
      var c := WalkTail(pages, logs, q, times, limits);
      LaterTimes(times);
      ListedIsRecent(pages[1..], logs[1..], q.(cursor := Some(c)), times[1..], limits[1..], e);
    }
  }

  lemma {:induction false} EventsAt(log: seq<Event>, q: Query, at: seq<Position>) returns (events: seq<Event>)
    requires forall p :: p in at ==> p in MatchingPositions(log, q)
    ensures Positions(events) == at && forall i :: 0 <= i < |events| ==> events[i] in log && Matches(events[i], q)
    decreases |at|
  {
    if at == [] { return []; }
    assert at[0] in at;
    var e :| e in log && Matches(e, q) && PositionOf(e) == at[0];
    var rest := EventsAt(log, q, at[1..]);
    events := [e] + rest;
  }

  lemma PageExists(log: seq<Event>, q: Query, limit: int) returns (page: Page)
    requires limit > 0
    ensures IsPage(page, log, q, limit)
  {
    var all := Sorted(MatchingPositions(log, q));
    forall p | p in Take(all, limit) ensures p in MatchingPositions(log, q) { assert p in all; }
    var events := EventsAt(log, q, Take(all, limit));
    page := Page(events, |all| > limit);
  }

  function Repeat<T>(x: T, n: nat): (l: seq<T>)
    ensures |l| == n && forall i :: 0 <= i < n ==> l[i] == x
  {
    if n == 0 then [] else [x] + Repeat(x, n - 1)
  }

  /** On a log at rest a walk can always be finished. */
  lemma {:induction false} WalkExists(log: seq<Event>, q: Query, now: int, limit: int) returns (pages: seq<Page>)
    requires limit > 0
    ensures IsWalk(pages, Repeat(log, |pages|), q, Repeat(now, |pages|), Repeat(limit, |pages|))
    ensures !pages[|pages| - 1].hasMore
    decreases |MatchingPositions(log, q)|
  {
    var page := PageExists(log, Recent(q, now), limit);
    if page.hasMore {
      var c := LastPosition(page);
      FewerRemain(page, log, log, q, now, limit, c);
      var rest := WalkExists(log, q.(cursor := Some(c)), now, limit);
      LongerWalk(page, log, q, now, limit, rest, Repeat(log, |rest|), Repeat(now, |rest|), Repeat(limit, |rest|));
      pages := [page] + rest;
    } else {
      ShortWalk(page, log, q, now, limit);
      pages := [page];
    }
  }

  lemma ShortWalk(page: Page, log: seq<Event>, q: Query, now: int, limit: int)
    requires IsPage(page, log, Recent(q, now), limit)
    ensures IsWalk([page], Repeat(log, 1), q, Repeat(now, 1), Repeat(limit, 1))
  {
  }

  lemma LongerWalk(page: Page, log: seq<Event>, q: Query, now: int, limit: int,
                   pages: seq<Page>, logs: seq<seq<Event>>, times: seq<int>, limits: seq<int>)
    requires IsPage(page, log, Recent(q, now), limit) && page.hasMore && page.events != []
    requires IsWalk(pages, logs, q.(cursor := Some(LastPosition(page))), times, limits)
    requires Evolves(log, logs[0], LastPosition(page))
    ensures IsWalk([page] + pages, [log] + logs, q, [now] + times, [limit] + limits)
  {
    assert ([page] + pages)[1..] == pages && ([log] + logs)[1..] == logs;
    assert ([now] + times)[1..] == times && ([limit] + limits)[1..] == limits;
  }

  /** Following the cursors ends, whatever is appended meanwhile: one event of the first log per page at least. */
  lemma {:induction false} WalkEnds(pages: seq<Page>, logs: seq<seq<Event>>, q: Query, times: seq<int>, limits: seq<int>)
    requires IsWalk(pages, logs, q, times, limits)
    ensures |pages| == 1 || |pages| <= |MatchingPositions(logs[0], q)|
    decreases |pages|
  {
    if |pages| > 1 {
      var c := WalkTail(pages, logs, q, times, limits);
      WalkEnds(pages[1..], logs[1..], q.(cursor := Some(c)), times[1..], limits[1..]);
      FewerRemain(pages[0], logs[0], logs[1..][0], q, times[0], limits[0], c);
    }
  }

  lemma FewerRemain(page: Page, log: seq<Event>, log': seq<Event>, q: Query, now: int, limit: int, c: Position)
    requires IsPage(page, log, Recent(q, now), limit) && page.hasMore && page.events != [] && c == LastPosition(page)
    requires Evolves(log, log', c)
    ensures 1 < |MatchingPositions(log, q)|
    ensures |MatchingPositions(log', q.(cursor := Some(c)))| < |MatchingPositions(log, q)|
  {
    var rest, all := MatchingPositions(log', q.(cursor := Some(c))), MatchingPositions(log, q);
    MoreThanOne(page, log, q, now, limit);
    BeforeIsOrder();
    forall x | x in rest ensures x in all && x != c {
      var e :| e in log' && Matches(e, q.(cursor := Some(c))) && PositionOf(e) == x;
      LaterEvent(page, log, log', q, now, limit, e);
    }
    PageMatches(page, log, q, now, limit);
    assert c in all by { assert page.events[|page.events| - 1] in page.events; }
    SubsetSize(rest + {c}, all);
  }

  lemma MoreThanOne(page: Page, log: seq<Event>, q: Query, now: int, limit: int)
    requires IsPage(page, log, Recent(q, now), limit) && page.hasMore
    ensures 1 < |MatchingPositions(log, q)|
  {
    var recent, all := MatchingPositions(log, Recent(q, now)), MatchingPositions(log, q);
    forall x | x in recent ensures x in all {
      var e :| e in log && Matches(e, Recent(q, now)) && PositionOf(e) == x;
      RecentMeans(e, q, now);
    }
    SubsetSize(recent, all);
  }
}
