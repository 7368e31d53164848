/** Following the rollback cursors from page to page, and resolving what was listed. */
module RollbackWalk {
  import opened Store
  import opened Ordering
  import opened Mvcc
  import opened History
  import opened EtcdWalk
  import opened Rollback
  import opened RollbackPages

  // ----- What an offer holds below one of its items -----

  lemma OfferedPositive(t: Table, db: Etcd, cluster: string, key: Bytes, before: int, r: int)
    requires before <= |db.log| && FaithfulKey(t, db, cluster, key) && r in Offered(t, db, cluster, key, before)
    ensures 1 <= r < before && WritesAt(db, key, r)
  {
    if r in Walked(db, key, before) { WalkedIsVersion(db, key, before, r); }
    VisibleIsLastWrite(db.log, key, r);
  }

  lemma {:induction false} WalkResumes(db: Etcd, key: Bytes, revision: int, cursor: int, r: int)
    requires cursor <= revision <= |db.log| && WritesAt(db, key, cursor)
    requires r in EntryRevisions(Chain(db, key, revision)) && r < cursor
    ensures r in EntryRevisions(Chain(db, key, cursor - 1))
    decreases revision
  {
    var c := Chain(db, key, revision);
    ChainStep(db, key, revision);
    VisibleIsLastWrite(db.log, key, revision);
    FirstRevision(c, r);
    if c[0].modRevision != cursor {
      WalkResumes(db, key, c[0].modRevision - 1, cursor, r);
    }
  }

  /** What an offer holds below one of its own items is offered again from that item. */
  lemma OfferResumes(t: Table, db: Etcd, cluster: string, key: Bytes, before: int, cursor: int, r: int)
    requires before <= |db.log| && FaithfulKey(t, db, cluster, key)
    requires cursor in Offered(t, db, cluster, key, before) && r in Offered(t, db, cluster, key, before) && r < cursor
    ensures cursor <= |db.log| && r in Offered(t, db, cluster, key, cursor)
  {
    OfferedPositive(t, db, cluster, key, before, cursor);
    if r in Walked(db, key, before) {
      WalkResumes(db, key, before - 1, cursor, r);
    }
  }

  // ----- A walk through the pages -----

  /** The candidates of one page and whether there are more. */
  datatype Page = Page(candidates: seq<Candidate>, more: bool)

  function RevisionsListed(candidates: seq<Candidate>): (l: seq<int>)
    ensures |l| == |candidates| && forall i :: 0 <= i < |l| ==> l[i] == candidates[i].entry.modRevision
  {
    seq(|candidates|, i requires 0 <= i < |candidates| => candidates[i].entry.modRevision)
  }

  function Cursor(page: Page): int
    requires page.candidates != []
  {
    page.candidates[|page.candidates| - 1].entry.modRevision
  }

  ghost predicate Answers(t: Table, db: Etcd, cluster: string, key: Bytes, before: int, limit: nat, page: Page)
    requires before <= |db.log|
  {
    limit >= 1 && IsPage(t, db, cluster, key, before, limit, Ok((page.candidates, page.more)))
  }

  /** Pages obtained one after the other, each below the last item of the one before; both stores fixed. */
  ghost predicate IsWalk(t: Table, db: Etcd, cluster: string, key: Bytes, before: int, limits: seq<nat>, pages: seq<Page>)
    requires before <= |db.log|
    decreases |pages|
  {
    && |pages| == |limits| && pages != []
    && Answers(t, db, cluster, key, before, limits[0], pages[0])
    && (|pages| > 1 ==>
          && pages[0].more && pages[0].candidates != [] && Cursor(pages[0]) <= |db.log|
          && IsWalk(t, db, cluster, key, Cursor(pages[0]), limits[1..], pages[1..]))
  }

  function Listed(pages: seq<Page>): seq<Candidate> {
    if pages == [] then [] else pages[0].candidates + Listed(pages[1..])
  }

  /** Versions of the key below `before`, the newest first. */
  ghost predicate ListsVersions(db: Etcd, key: Bytes, before: int, l: seq<int>) {
    IsDescending(l) && forall r :: r in l ==> 1 <= r < before && WritesAt(db, key, r)
  }

  /** The candidate is what storage or etcd holds at its own revision, with the right source. */
  ghost predicate IsCandidate(t: Table, db: Etcd, cluster: string, key: Bytes, c: Candidate) {
    Known(t, db, cluster, key, c.entry.modRevision) && c == CandidateAt(t, db, cluster, key, c.entry.modRevision)
  }

  lemma CandidateRevision(t: Table, db: Etcd, cluster: string, key: Bytes, before: int, r: int)
    requires before <= |db.log| && FaithfulKey(t, db, cluster, key) && r in Offered(t, db, cluster, key, before)
    ensures Known(t, db, cluster, key, r) && CandidateAt(t, db, cluster, key, r).entry.modRevision == r
  {
    OfferedIsKnown(t, db, cluster, key, before, r);
    if SnapId(cluster, key, r) !in t { WalkedIsVersion(db, key, before, r); }
  }

  /** One page: the newest offered versions, each with its entry and source. */
  lemma PageRevisions(t: Table, db: Etcd, cluster: string, key: Bytes, before: int, limit: nat, page: Page)
    requires before <= |db.log| && FaithfulKey(t, db, cluster, key) && Answers(t, db, cluster, key, before, limit, page)
    ensures RevisionsListed(page.candidates) == Take(Descending(Offered(t, db, cluster, key, before)), limit)
    ensures forall c :: c in page.candidates ==> IsCandidate(t, db, cluster, key, c)
  {
    var all := Offered(t, db, cluster, key, before);
    var revs := Take(Descending(all), limit);
    forall i | 0 <= i < |revs|
      ensures page.candidates[i].entry.modRevision == revs[i] && IsCandidate(t, db, cluster, key, page.candidates[i])
    {
      assert Descending(all)[i] in Descending(all);
      CandidateRevision(t, db, cluster, key, before, revs[i]);
    }
  }

  lemma PageIsOffered(t: Table, db: Etcd, cluster: string, key: Bytes, before: int, limit: nat, page: Page)
    requires before <= |db.log| && FaithfulKey(t, db, cluster, key) && Answers(t, db, cluster, key, before, limit, page)
    ensures ListsVersions(db, key, before, RevisionsListed(page.candidates))
    ensures forall c :: c in page.candidates ==> c.entry.modRevision in Offered(t, db, cluster, key, before)
  {
    PageRevisions(t, db, cluster, key, before, limit, page);
    var d := Descending(Offered(t, db, cluster, key, before));
    var l := RevisionsListed(page.candidates);
    forall r | r in l ensures r in d && 1 <= r < before && WritesAt(db, key, r) {
      assert r in d;
      OfferedPositive(t, db, cluster, key, before, r);
    }
    forall c | c in page.candidates ensures c.entry.modRevision in d {
      var i :| 0 <= i < |page.candidates| && page.candidates[i] == c;
      assert l[i] in l;
    }
  }

  /** A cursor is a version of the key below the position of its page. */
  lemma CursorIsOffered(t: Table, db: Etcd, cluster: string, key: Bytes, before: int, limit: nat, page: Page)
    requires before <= |db.log| && FaithfulKey(t, db, cluster, key) && Answers(t, db, cluster, key, before, limit, page)
    requires page.candidates != []
    ensures Cursor(page) in Offered(t, db, cluster, key, before)
    ensures 1 <= Cursor(page) < before && WritesAt(db, key, Cursor(page))
  {
    PageIsOffered(t, db, cluster, key, before, limit, page);
    assert page.candidates[|page.candidates| - 1] in page.candidates;
    OfferedPositive(t, db, cluster, key, before, Cursor(page));
  }

  /** What a page offered and did not list is offered again from its cursor. */
  lemma NotYetListed(t: Table, db: Etcd, cluster: string, key: Bytes, before: int, limit: nat, page: Page, r: int)
    requires before <= |db.log| && FaithfulKey(t, db, cluster, key) && Answers(t, db, cluster, key, before, limit, page)
    requires r in Offered(t, db, cluster, key, before) && r !in RevisionsListed(page.candidates)
    ensures page.more && page.candidates != []
    ensures Cursor(page) <= |db.log| && r in Offered(t, db, cluster, key, Cursor(page))
  {
    var all, l := Offered(t, db, cluster, key, before), RevisionsListed(page.candidates);
    PageRevisions(t, db, cluster, key, before, limit, page);
    assert r in Descending(all);
    CursorIsOffered(t, db, cluster, key, before, limit, page);
    assert l[|l| - 1] in l;
    LatestPrecede(all, limit, r, Cursor(page));
    OfferResumes(t, db, cluster, key, before, Cursor(page), r);
  }

  /** A page promised by "more" is neither empty nor an error, whatever its limit. */
  lemma PromiseIsKept(t: Table, db: Etcd, cluster: string, key: Bytes, before: int, limit: nat, page: Page,
                      nextLimit: nat, next: Result<(seq<Candidate>, bool), StoreError>)
    requires before <= |db.log| && FaithfulKey(t, db, cluster, key) && Answers(t, db, cluster, key, before, limit, page)
    requires page.more && nextLimit >= 1
    ensures page.candidates != [] && Cursor(page) <= |db.log|
    ensures IsPage(t, db, cluster, key, Cursor(page), nextLimit, next) ==> next.Ok? && next.value.0 != []
  {
    var r := Unlisted(t, db, cluster, key, before, limit, page);
    NotYetListed(t, db, cluster, key, before, limit, page, r);
  }

  lemma Unlisted(t: Table, db: Etcd, cluster: string, key: Bytes, before: int, limit: nat, page: Page) returns (r: int)
    requires before <= |db.log| && FaithfulKey(t, db, cluster, key) && Answers(t, db, cluster, key, before, limit, page)
    requires page.more
    ensures r in Offered(t, db, cluster, key, before) && r !in RevisionsListed(page.candidates)
  {
    PageRevisions(t, db, cluster, key, before, limit, page);
    var d := Descending(Offered(t, db, cluster, key, before));
    r := d[limit];
    assert r in d;
  }

  lemma WalkTail(t: Table, db: Etcd, cluster: string, key: Bytes, before: int, limits: seq<nat>, pages: seq<Page>)
    requires before <= |db.log| && IsWalk(t, db, cluster, key, before, limits, pages) && |pages| > 1
    ensures Answers(t, db, cluster, key, before, limits[0], pages[0])
    ensures pages[0].more && pages[0].candidates != [] && Cursor(pages[0]) <= |db.log|
    ensures IsWalk(t, db, cluster, key, Cursor(pages[0]), limits[1..], pages[1..])
    ensures pages[1..][|pages[1..]| - 1] == pages[|pages| - 1]
  {
  }

  lemma ListedSplit(pages: seq<Page>)
    requires pages != []
    ensures Listed(pages) == pages[0].candidates + Listed(pages[1..])
    ensures RevisionsListed(Listed(pages)) == RevisionsListed(pages[0].candidates) + RevisionsListed(Listed(pages[1..]))
    ensures |pages| == 1 ==> Listed(pages) == pages[0].candidates
  {
    RevisionsJoin(pages[0].candidates, Listed(pages[1..]));
  }

  lemma RevisionsJoin(a: seq<Candidate>, b: seq<Candidate>)
    ensures RevisionsListed(a + b) == RevisionsListed(a) + RevisionsListed(b)
  {
  }

  lemma Joined(db: Etcd, key: Bytes, before: int, page: seq<int>, rest: seq<int>, cursor: int)
    requires page != [] && cursor == page[|page| - 1]
    requires ListsVersions(db, key, before, page) && ListsVersions(db, key, cursor, rest)
    ensures ListsVersions(db, key, before, page + rest)
  {
    var l := page + rest;
    assert cursor in page;
    forall i, j | 0 <= i < j < |l| ensures l[i] > l[j] {
      if i < |page| <= j {
        assert rest[j - |page|] in rest;
      }
    }
  }

  /** With or without deletions a walk lists versions of the key only, strictly descending, so nothing twice. */
  lemma {:induction false} WalkDescends(t: Table, db: Etcd, cluster: string, key: Bytes, before: int, limits: seq<nat>, pages: seq<Page>)
    requires before <= |db.log| && FaithfulKey(t, db, cluster, key) && IsWalk(t, db, cluster, key, before, limits, pages)
    ensures ListsVersions(db, key, before, RevisionsListed(Listed(pages)))
    decreases |pages|
  {
    ListedSplit(pages);
    PageIsOffered(t, db, cluster, key, before, limits[0], pages[0]);
    if |pages| > 1 {
      WalkTail(t, db, cluster, key, before, limits, pages);
      WalkDescends(t, db, cluster, key, Cursor(pages[0]), limits[1..], pages[1..]);
      Joined(db, key, before, RevisionsListed(pages[0].candidates), RevisionsListed(Listed(pages[1..])), Cursor(pages[0]));
    }
  }

  /** Everything listed was offered at some position of the walk, and is listed with its entry and source. */
  lemma {:induction false} WalkOffers(t: Table, db: Etcd, cluster: string, key: Bytes, before: int, limits: seq<nat>, pages: seq<Page>,
                                      c: Candidate) returns (from: int)
    requires before <= |db.log| && FaithfulKey(t, db, cluster, key) && IsWalk(t, db, cluster, key, before, limits, pages)
    requires c in Listed(pages)
    ensures IsCandidate(t, db, cluster, key, c)
    ensures from <= before && c.entry.modRevision in Offered(t, db, cluster, key, from)
    decreases |pages|
  {
    ListedSplit(pages);
    if c in pages[0].candidates {
      PageRevisions(t, db, cluster, key, before, limits[0], pages[0]);
      PageIsOffered(t, db, cluster, key, before, limits[0], pages[0]);
      from := before;
    } else {
      WalkTail(t, db, cluster, key, before, limits, pages);
      CursorIsOffered(t, db, cluster, key, before, limits[0], pages[0]);
      from := WalkOffers(t, db, cluster, key, Cursor(pages[0]), limits[1..], pages[1..], c);
    }
  }

  lemma {:induction false} WalkCovers(t: Table, db: Etcd, cluster: string, key: Bytes, before: int, limits: seq<nat>, pages: seq<Page>, r: int)
    requires before <= |db.log| && FaithfulKey(t, db, cluster, key) && IsWalk(t, db, cluster, key, before, limits, pages)
    requires !pages[|pages| - 1].more && r in Offered(t, db, cluster, key, before)
    ensures r in RevisionsListed(Listed(pages))
    decreases |pages|
  {
    ListedSplit(pages);
    if r !in RevisionsListed(pages[0].candidates) {
      NotYetListed(t, db, cluster, key, before, limits[0], pages[0], r);
      WalkTail(t, db, cluster, key, before, limits, pages);
      WalkCovers(t, db, cluster, key, Cursor(pages[0]), limits[1..], pages[1..], r);
    }
  }

  /** Following the cursors ends: every page but the last takes the position at least one revision down. */
  lemma {:induction false} WalkEnds(t: Table, db: Etcd, cluster: string, key: Bytes, before: int, limits: seq<nat>, pages: seq<Page>)
    requires before <= |db.log| && FaithfulKey(t, db, cluster, key) && IsWalk(t, db, cluster, key, before, limits, pages)
    ensures |pages| == 1 || |pages| <= before
    decreases |pages|
  {
    if |pages| > 1 {
      WalkTail(t, db, cluster, key, before, limits, pages);
      CursorIsOffered(t, db, cluster, key, before, limits[0], pages[0]);
      WalkEnds(t, db, cluster, key, Cursor(pages[0]), limits[1..], pages[1..]);
    }
  }

  /** A finished walk, with or without deletions and with any page sizes: each version at most once, newest first,
      with its entry and source; everything the first position offers, every stored snapshot among it. */
  lemma WalkListsEverythingOffered(t: Table, db: Etcd, cluster: string, key: Bytes, before: int, limits: seq<nat>, pages: seq<Page>)
    requires before <= |db.log| && FaithfulKey(t, db, cluster, key) && IsWalk(t, db, cluster, key, before, limits, pages)
    requires !pages[|pages| - 1].more
    ensures ListsVersions(db, key, before, RevisionsListed(Listed(pages)))
    ensures forall c :: c in Listed(pages) ==> IsCandidate(t, db, cluster, key, c)
    ensures forall r :: r in Offered(t, db, cluster, key, before) ==> r in RevisionsListed(Listed(pages))
    ensures forall r :: r in Revisions(t, cluster, key) && r < before ==> r in RevisionsListed(Listed(pages))
  {
    WalkDescends(t, db, cluster, key, before, limits, pages);
    forall c | c in Listed(pages) ensures IsCandidate(t, db, cluster, key, c) {
      var from := WalkOffers(t, db, cluster, key, before, limits, pages, c);
    }
    forall r | r in Offered(t, db, cluster, key, before) ensures r in RevisionsListed(Listed(pages)) {
      WalkCovers(t, db, cluster, key, before, limits, pages, r);
    }
  }

  lemma PageExists(t: Table, db: Etcd, cluster: string, key: Bytes, before: int, limit: nat) returns (page: Page)
    requires before <= |db.log| && FaithfulKey(t, db, cluster, key) && limit >= 1
    requires Offered(t, db, cluster, key, before) != {} || !(1 <= before - 1 < db.compacted)
    ensures Answers(t, db, cluster, key, before, limit, page)
  {
    var all := Offered(t, db, cluster, key, before);
    var revs := Take(Descending(all), limit);
    ListedIsKnown(t, db, cluster, key, before, limit);
    page := Page(CandidatesAt(t, db, cluster, key, revs), |all| > limit);
  }

  lemma ListedIsKnown(t: Table, db: Etcd, cluster: string, key: Bytes, before: int, limit: nat)
    requires before <= |db.log|
    ensures forall r :: r in Take(Descending(Offered(t, db, cluster, key, before)), limit) ==> Known(t, db, cluster, key, r)
  {
    var d := Descending(Offered(t, db, cluster, key, before));
    forall r | r in Take(d, limit) ensures Known(t, db, cluster, key, r) {
      assert r in d;
      OfferedIsKnown(t, db, cluster, key, before, r);
    }
  }

  ghost function CandidatesAt(t: Table, db: Etcd, cluster: string, key: Bytes, revs: seq<int>): (l: seq<Candidate>)
    requires forall r :: r in revs ==> Known(t, db, cluster, key, r)
    ensures |l| == |revs| && forall i :: 0 <= i < |revs| ==> revs[i] in revs && l[i] == CandidateAt(t, db, cluster, key, revs[i])
  {
    if revs == [] then [] else
      assert forall r :: r in revs[1..] ==> r in revs;
      [CandidateAt(t, db, cluster, key, revs[0])] + CandidatesAt(t, db, cluster, key, revs[1..])
  }

  lemma MoreIsOffered(t: Table, db: Etcd, cluster: string, key: Bytes, before: int, limit: nat, page: Page)
    requires before <= |db.log| && FaithfulKey(t, db, cluster, key) && Answers(t, db, cluster, key, before, limit, page)
    requires page.more
    ensures page.candidates != [] && Cursor(page) <= |db.log| && Offered(t, db, cluster, key, Cursor(page)) != {}
  {
    var r := Unlisted(t, db, cluster, key, before, limit, page);
    NotYetListed(t, db, cluster, key, before, limit, page, r);
  }

  /** Unless the very first answer is the compaction error, a walk can always be finished. */
  lemma {:induction false} WalkExists(t: Table, db: Etcd, cluster: string, key: Bytes, before: int, limit: nat)
    returns (limits: seq<nat>, pages: seq<Page>)
    requires before <= |db.log| && FaithfulKey(t, db, cluster, key) && limit >= 1
    requires Offered(t, db, cluster, key, before) != {} || !(1 <= before - 1 < db.compacted)
    ensures IsWalk(t, db, cluster, key, before, limits, pages) && !pages[|pages| - 1].more
    decreases before
  {
    var page := PageExists(t, db, cluster, key, before, limit);
    limits, pages := [limit], [page];
    if page.more {
      MoreIsOffered(t, db, cluster, key, before, limit, page);
      CursorIsOffered(t, db, cluster, key, before, limit, page);
      var ls, ps := WalkExists(t, db, cluster, key, Cursor(page), limit);
      limits, pages := [limit] + ls, [page] + ps;
      assert limits[1..] == ls && pages[1..] == ps;
    }
  }

  // ----- Without deletions the listing is exact -----

  ghost predicate NeverDeleted(db: Etcd, key: Bytes) {
    forall i :: 0 <= i < |db.log| && key in db.log[i] ==> db.log[i][key].Put?
  }

  /** Some revision that etcd still serves shows version `v`. */
  ghost predicate StillReadable(db: Etcd, key: Bytes, v: int) {
    exists q: nat :: ShowsAt(db, key, q, v)
  }

  ghost predicate ShowsAt(db: Etcd, key: Bytes, q: nat, v: int) {
    1 <= q <= |db.log| && q >= db.compacted && EntryAt(db.log, key, q).Some? && EntryAt(db.log, key, q).value.modRevision == v
  }

  /** Stored or still readable, below `before`. */
  ghost function Available(t: Table, db: Etcd, cluster: string, key: Bytes, before: int): (s: set<int>)
    requires before <= |db.log|
  {
    set v | 1 <= v < before && (SnapId(cluster, key, v) in t || StillReadable(db, key, v))
  }

  lemma {:induction false} ReadableIsWalked(db: Etcd, key: Bytes, revision: int, q: nat, v: int)
    requires revision <= |db.log| && NeverDeleted(db, key) && ShowsAt(db, key, q, v) && q <= revision
    ensures v in EntryRevisions(Chain(db, key, revision))
    decreases revision
  {
    var m := StillShown(db, key, revision, q, v);
    var c := Chain(db, key, revision);
    ChainStep(db, key, revision);
    FirstRevision(c, v);
    if m > q {
      ReadableIsWalked(db, key, m - 1, q, v);
    }
  }

  /** Without deletions a key once present is present later, at the same version or at one written in between. */
  lemma StillShown(db: Etcd, key: Bytes, revision: int, q: nat, v: int) returns (m: int)
    requires revision <= |db.log| && NeverDeleted(db, key) && ShowsAt(db, key, q, v) && q <= revision
    ensures EntryAt(db.log, key, revision).Some? && EntryAt(db.log, key, revision).value.modRevision == m
    ensures 1 <= m <= revision && (m <= q ==> m == v)
    ensures Chain(db, key, revision) != []
  {
    VisibleIsLastWrite(db.log, key, q);
    VisibleIsLastWrite(db.log, key, revision);
    LastWriteFrom(db.log, key, q, revision);
    m := EntryAt(db.log, key, revision).value.modRevision;
  }

  lemma {:induction false} WalkedIsReadable(db: Etcd, key: Bytes, revision: int, i: nat)
    requires revision <= |db.log| && i < |Chain(db, key, revision)|
    ensures StillReadable(db, key, Chain(db, key, revision)[i].modRevision)
    decreases revision
  {
    var c := Chain(db, key, revision);
    ChainStep(db, key, revision);
    if i == 0 {
      assert ShowsAt(db, key, revision, c[0].modRevision);
    } else {
      assert c[i] == c[1..][i - 1];
      WalkedIsReadable(db, key, c[0].modRevision - 1, i - 1);
    }
  }

  lemma OfferIsAvailable(t: Table, db: Etcd, cluster: string, key: Bytes, before: int)
    requires before <= |db.log| && FaithfulKey(t, db, cluster, key)
    requires NeverDeleted(db, key) && WritesAt(db, key, before)
    ensures Offered(t, db, cluster, key, before) == Available(t, db, cluster, key, before)
  {
    forall v | v in Offered(t, db, cluster, key, before) ensures v in Available(t, db, cluster, key, before) {
      OfferedIsAvailable(t, db, cluster, key, before, v);
    }
    forall v | v in Available(t, db, cluster, key, before) ensures v in Offered(t, db, cluster, key, before) {
      AvailableIsOffered(t, db, cluster, key, before, v);
    }
  }

  lemma OfferedIsAvailable(t: Table, db: Etcd, cluster: string, key: Bytes, before: int, v: int)
    requires before <= |db.log| && FaithfulKey(t, db, cluster, key) && v in Offered(t, db, cluster, key, before)
    ensures v in Available(t, db, cluster, key, before)
  {
    OfferedPositive(t, db, cluster, key, before, v);
    if v in Walked(db, key, before) {
      var i :| 0 <= i < |Chain(db, key, before - 1)| && Chain(db, key, before - 1)[i].modRevision == v;
      WalkedIsReadable(db, key, before - 1, i);
    }
  }

  lemma AvailableIsOffered(t: Table, db: Etcd, cluster: string, key: Bytes, before: int, v: int)
    requires before <= |db.log| && NeverDeleted(db, key) && WritesAt(db, key, before)
    requires v in Available(t, db, cluster, key, before)
    ensures v in Offered(t, db, cluster, key, before)
  {
    if SnapId(cluster, key, v) !in t {
      var q: nat :| ShowsAt(db, key, q, v);
      VisibleIsLastWrite(db.log, key, q);
      assert q < before;
      ReadableIsWalked(db, key, before - 1, q, v);
    }
  }

  /** For a key that was never deleted, a finished walk from its current version lists every stored or still
      readable earlier version exactly once, newest first, each with its entry and source. */
  lemma WalkListsExactly(t: Table, db: Etcd, cluster: string, key: Bytes, before: int, limits: seq<nat>, pages: seq<Page>)
    requires before <= |db.log| && FaithfulKey(t, db, cluster, key) && IsWalk(t, db, cluster, key, before, limits, pages)
    requires !pages[|pages| - 1].more && NeverDeleted(db, key) && WritesAt(db, key, before)
    ensures RevisionsListed(Listed(pages)) == Descending(Available(t, db, cluster, key, before))
    ensures forall c :: c in Listed(pages) ==> IsCandidate(t, db, cluster, key, c)
  {
    WalkListsEverythingOffered(t, db, cluster, key, before, limits, pages);
    OfferIsAvailable(t, db, cluster, key, before);
    var l := RevisionsListed(Listed(pages));
    forall r | r in l ensures r in Available(t, db, cluster, key, before) {
      var i :| 0 <= i < |l| && l[i] == r;
      ListedIsAvailable(t, db, cluster, key, before, limits, pages, Listed(pages)[i]);
    }
    DescendingUnique(l, Available(t, db, cluster, key, before));
  }

  lemma ListedIsAvailable(t: Table, db: Etcd, cluster: string, key: Bytes, before: int, limits: seq<nat>, pages: seq<Page>, c: Candidate)
    requires before <= |db.log| && FaithfulKey(t, db, cluster, key) && IsWalk(t, db, cluster, key, before, limits, pages)
    requires c in Listed(pages)
    ensures c.entry.modRevision in Available(t, db, cluster, key, before)
  {
    var from := WalkOffers(t, db, cluster, key, before, limits, pages, c);
    OfferedIsAvailable(t, db, cluster, key, from, c.entry.modRevision);
  }

  // ----- Resolving a listed version -----

  /** The reads and decisions of rollbackTarget. */
  ghost function RollbackTarget(t: Table, db: Etcd, cluster: string, key: Bytes, expected: int, target: int):
    Result<(Entry, Candidate), StoreError>
    requires Consistent(t)
  {
    match Current(db, key)
    case None => Err(NoPreviousVersion)
    case Some(current) =>
      if current.modRevision != expected then Err(StoreError.Conflict)
      else if target < 1 || target >= current.modRevision then Err(NoPreviousVersion)
      else
        var snapshots := ListBefore(t, cluster, key, target + 1, 1);
        if |snapshots| > 0 && snapshots[0].entry.modRevision == target then
          Ok((current, Candidate(snapshots[0].entry, Storage, snapshots[0].capturedAt)))
        else match GetAtRevision(db, key, target)
          case Err(error) => Err(error)
          case Ok(None) => Err(NoPreviousVersion)
          case Ok(Some(e)) =>
            if e.modRevision == target then Ok((current, Candidate(e, FromEtcd, 0))) else Err(NoPreviousVersion)
  }

  /** The newest snapshot up to `target` has revision `target` exactly when that revision is stored. */
  lemma StoredLookup(t: Table, cluster: string, key: Bytes, target: int)
    requires Consistent(t)
    ensures var l := ListBefore(t, cluster, key, target + 1, 1);
            var id := SnapId(cluster, key, target);
            && (|l| > 0 && l[0].entry.modRevision == target <==> id in t)
            && (id in t ==> |l| > 0 && l[0] == t[id])
  {
    var low := Below(Revisions(t, cluster, key), target + 1);
    var l := ListBefore(t, cluster, key, target + 1, 1);
    var d := Descending(low);
    if d != [] {
      assert d[0] in low;
      assert l[0] == t[SnapId(cluster, key, d[0])];
      assert IdOf(l[0]) == SnapId(cluster, key, d[0]);
    }
    if SnapId(cluster, key, target) in t {
      assert target in low;
      assert target in d;
      var i :| 0 <= i < |d| && d[i] == target;
    }
  }

  /** The answer is a conflict exactly when the version read is not the expected one. */
  lemma ConflictIff(t: Table, db: Etcd, cluster: string, key: Bytes, expected: int, target: int)
    requires Consistent(t) && Current(db, key).Some?
    ensures RollbackTarget(t, db, cluster, key, expected, target) == Err(StoreError.Conflict) <==>
      ModRevision(db, key) != expected
  {
  }

  /** A rollback has a target exactly when the key is at the expected version, the target lies below it, and it is a
      version of the key that is stored or can be read at its own revision. The answer is then the current version
      and the target version, the stored copy if there is one. */
  lemma TargetIff(t: Table, db: Etcd, cluster: string, key: Bytes, expected: int, target: int)
    requires FaithfulKey(t, db, cluster, key)
    ensures var answer := RollbackTarget(t, db, cluster, key, expected, target);
      && (answer.Ok? <==>
            && Current(db, key).Some? && ModRevision(db, key) == expected && 1 <= target < expected
            && (SnapId(cluster, key, target) in t || (target >= db.compacted && IsOwnVersion(db, key, target))))
      && (answer.Ok? ==>
            && Current(db, key) == Some(answer.value.0)
            && IsCandidate(t, db, cluster, key, answer.value.1) && answer.value.1.entry.modRevision == target
            && IsVersion(db, key, answer.value.1.entry))
  {
    if Current(db, key).Some? && 1 <= target < Current(db, key).value.modRevision { StoredLookup(t, cluster, key, target); }
  }

  /** The key was written at that very revision and not deleted. */
  predicate IsOwnVersion(db: Etcd, key: Bytes, revision: int) {
    1 <= revision <= |db.log| && EntryAt(db.log, key, revision).Some?
    && EntryAt(db.log, key, revision).value.modRevision == revision
  }

  /** A version offered at any position up to the current version resolves to the entry and source listed exactly
      when it is stored or not below the compaction revision; otherwise the answer is "compacted". */
  lemma OfferedResolves(t: Table, db: Etcd, cluster: string, key: Bytes, before: int, r: int)
    requires FaithfulKey(t, db, cluster, key) && Current(db, key).Some? && before <= ModRevision(db, key)
    requires r in Offered(t, db, cluster, key, before)
    ensures Known(t, db, cluster, key, r)
    ensures var current := Current(db, key).value;
            var answer := RollbackTarget(t, db, cluster, key, current.modRevision, r);
            if SnapId(cluster, key, r) in t || r >= db.compacted
            then answer == Ok((current, CandidateAt(t, db, cluster, key, r)))
            else answer == Err(Compacted)
  {
    OfferedPositive(t, db, cluster, key, before, r);
    OfferedIsKnown(t, db, cluster, key, before, r);
    StoredLookup(t, cluster, key, r);
    if SnapId(cluster, key, r) !in t {
      WalkedIsVersion(db, key, before, r);
    }
  }

  /** Every version listed on any page of a walk from the current version resolves to exactly the candidate listed,
      if and only if it is stored or not below the compaction revision. */
  lemma ListedResolves(t: Table, db: Etcd, cluster: string, key: Bytes, limits: seq<nat>, pages: seq<Page>, c: Candidate)
    requires FaithfulKey(t, db, cluster, key) && Current(db, key).Some?
    requires IsWalk(t, db, cluster, key, ModRevision(db, key), limits, pages) && c in Listed(pages)
    ensures var current := Current(db, key).value;
            var r := c.entry.modRevision;
            var answer := RollbackTarget(t, db, cluster, key, current.modRevision, r);
            if c.source == Storage || r >= db.compacted then answer == Ok((current, c)) else answer == Err(Compacted)
  {
    var from := WalkOffers(t, db, cluster, key, ModRevision(db, key), limits, pages, c);
    OfferedResolves(t, db, cluster, key, from, c.entry.modRevision);
  }

  /** Such a version exists: written at 1 and 3 with another key between, compacted at 2, nothing stored. Version 1
      is still shown by revision 2, so it is listed, but it cannot be read at revision 1. */
  lemma ListedBelowCompaction(cluster: string, key: Bytes, other: Bytes, value: Bytes)
    requires other != key
    ensures var db := Etcd([map[key := Put(value, 0)], map[other := Put(value, 0)], map[key := Put(value, 0)]], 2);
      && ModRevision(db, key) == 3
      && Offered(map[], db, cluster, key, 3) == {1}
      && RollbackTarget(map[], db, cluster, key, 3, 1) == Err(Compacted)
  {
    var db := Etcd([map[key := Put(value, 0)], map[other := Put(value, 0)], map[key := Put(value, 0)]], 2);
    var first := Entry(key, value, 1, 1, 1, 0);
    assert EntryAt(db.log, key, 1) == Some(first);
    assert EntryAt(db.log, key, 2) == Some(first);
    assert Chain(db, key, 0) == [];
    assert Chain(db, key, 2) == [first];
    assert Revisions(map[], cluster, key) == {};
    assert EntryRevisions([first]) == {1} by { assert [first][0].modRevision == 1; }
    var current := Current(db, key).value;
    assert current.modRevision == 3;
    StoredLookup(map[], cluster, key, 1);
  }
}
