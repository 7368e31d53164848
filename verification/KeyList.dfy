/** Listing keys by prefix, page by page (internal/store/etcd.go, List). */
module KeyList {
  import opened Store
  import opened Ordering
  import opened Lex

  datatype Page = Page(entries: seq<Entry>, next: Bytes)

  datatype ListError = LimitNotPositive | CursorOutsidePrefix

  /** etcd's range request: keys from `start` up to `end`, where the single byte zero stands for no bound. */
  predicate InRange(start: Bytes, end: Bytes, k: Bytes) {
    !KeyLess(k, start) && (end == [0] || KeyLess(k, end))
  }

  ghost predicate IsStore(store: map<Bytes, Entry>) {
    forall k :: k in store ==> k != [] && store[k].key == k
  }

  ghost function Sorted(keys: set<Bytes>): (l: seq<Bytes>)
    ensures |l| == |keys| && SameElements(l, keys) && Ascending(l, KeyLess)
  {
    KeyLessIsOrder();
    Listing(keys, KeyLess)
  }

  /** A server that answers range requests from `store`, in key order and cut at the requested limit. */
  ghost predicate Serves(server: (Bytes, Bytes, nat) -> seq<Entry>, store: map<Bytes, Entry>) {
    forall start, end, n :: n > 0 ==>
      IsReply(server(start, end, n), store, Take(Sorted(set k | k in store && InRange(start, end, k)), n))
  }

  ghost predicate IsReply(reply: seq<Entry>, store: map<Bytes, Entry>, keys: seq<Bytes>) {
    && |reply| == |keys|
    && forall i :: 0 <= i < |keys| ==> keys[i] in store && reply[i] == store[keys[i]]
  }

  // ----- The bound of a prefix range -----

  /** A suffix of 0xff bytes cannot be counted up, so the byte before it is. */
  lemma {:induction false} PrefixRange(prefix: Bytes, i: nat, k: Bytes)
    requires i < |prefix| && prefix[i] < 255 && forall j :: i < j < |prefix| ==> prefix[j] == 255
    ensures prefix <= k <==> !KeyLess(k, prefix) && KeyLess(k, prefix[..i] + [prefix[i] + 1])
  {
    var end := prefix[..i] + [prefix[i] + 1];
    assert end[0] == if i == 0 then prefix[0] + 1 else prefix[0];
    if k != [] {
      assert KeyLess(k, prefix) <==> k[0] < prefix[0] || (k[0] == prefix[0] && Less(k[1..], prefix[1..]));
      assert KeyLess(k, end) <==> k[0] < end[0] || (k[0] == end[0] && Less(k[1..], end[1..]));
      assert prefix == [prefix[0]] + prefix[1..] && k == [k[0]] + k[1..];
      if i == 0 {
        assert end[1..] == [] && !Less(k[1..], end[1..]);
        TopPrefix(prefix[1..], k[1..]);
      } else {
        PrefixRange(prefix[1..], i - 1, k[1..]);
        assert end[1..] == prefix[1..][..i - 1] + [prefix[1..][i - 1] + 1];
      }
    }
  }

  /** Nothing follows the keys that start with 0xff bytes only. */
  lemma {:induction false} TopPrefix(prefix: Bytes, k: Bytes)
    requires forall j :: 0 <= j < |prefix| ==> prefix[j] == 255
    ensures prefix <= k <==> !KeyLess(k, prefix)
  {
    if prefix != [] && k != [] && k[0] == prefix[0] {
      TopPrefix(prefix[1..], k[1..]);
      assert prefix == [prefix[0]] + prefix[1..] && k == [k[0]] + k[1..];
    }
  }

  /** clientv3.GetPrefixRangeEnd. */
  method PrefixRangeEnd(prefix: Bytes) returns (end: Bytes)
    ensures forall k: Bytes :: prefix <= k <==> InRange(prefix, end, k)
  {
    var i := |prefix|;
    while i > 0
      invariant 0 <= i <= |prefix|
      invariant forall j :: i <= j < |prefix| ==> prefix[j] == 255
    {
      i := i - 1;
      if prefix[i] < 255 {
        end := prefix[..i] + [prefix[i] + 1];
        forall k: Bytes ensures prefix <= k <==> InRange(prefix, end, k) { PrefixRange(prefix, i, k); }
        return;
      }
    }
    end := [0];
    forall k: Bytes ensures prefix <= k <==> InRange(prefix, end, k) { TopPrefix(prefix, k); }
  }

  // ----- One page -----

  /** The keys a page starting at `cursor` draws from; the empty cursor starts at the first key. */
  function Remaining(store: map<Bytes, Entry>, prefix: Bytes, cursor: Bytes): set<Bytes> {
    set k | k in store && prefix <= k && (cursor == [] || !KeyLess(k, cursor))
  }

  ghost predicate IsPage(page: Page, store: map<Bytes, Entry>, prefix: Bytes, cursor: Bytes, limit: int) {
    var rest := Sorted(Remaining(store, prefix, cursor));
    && limit > 0
    && IsReply(page.entries, store, Take(rest, limit))
    && page.next == if limit < |rest| then rest[limit] else []
  }

  /** Asking for the range is asking for the prefix. */
  lemma RangeIsPrefix(store: map<Bytes, Entry>, prefix: Bytes, cursor: Bytes, start: Bytes, end: Bytes)
    requires IsStore(store) && (cursor == [] || prefix <= cursor)
    requires start == if cursor != [] then cursor else if prefix == [] then [0] else prefix
    requires if prefix == [] then end == [0] else forall k: Bytes :: prefix <= k <==> InRange(prefix, end, k)
    ensures (set k | k in store && InRange(start, end, k)) == Remaining(store, prefix, cursor)
  {
    forall k: Bytes | k in store ensures InRange(start, end, k) <==> prefix <= k && (cursor == [] || !KeyLess(k, cursor)) {
      if prefix == [] {
        FirstKey(k);
      } else if cursor != [] && !KeyLess(k, cursor) {
        assert InRange(prefix, end, cursor);
        NotBefore(prefix, cursor, k);
        assert InRange(prefix, end, k) <==> InRange(start, end, k);
      }
    }
  }

  lemma FirstKey(k: Bytes)
    requires k != []
    ensures !KeyLess(k, [0])
  {
    var first: Bytes := [0];
    assert first[1..] == [] && !Less(k[1..], first[1..]);
    assert !Less(k, first);
  }

  lemma NotBefore(a: Bytes, b: Bytes, k: Bytes)
    requires !KeyLess(b, a) && !KeyLess(k, b)
    ensures !KeyLess(k, a)
  {
    if KeyLess(k, a) {
      if a == b { assert false; }
      Total(a, b);
      Transitive(k, a, b);
    }
  }

  /** Keeps the first `limit` entries; the key of the one after them is the cursor. */
  method CutPage(reply: seq<Entry>, limit: nat) returns (page: Page)
    ensures page.entries == Take(reply, limit)
    ensures page.next == if limit < |reply| then reply[limit].key else []
  {
    page := Page([], []);
    var index := 0;
    while index < |reply|
      invariant 0 <= index <= |reply| && index <= limit
      invariant page.entries == reply[..index] && page.next == []
    {
      if index == limit {
        page := page.(next := reply[index].key);
        return;
      }
      page := page.(entries := page.entries + [reply[index]]);
      index := index + 1;
    }
  }

  lemma CutIsPage(reply: seq<Entry>, page: Page, store: map<Bytes, Entry>, prefix: Bytes, cursor: Bytes, limit: nat)
    requires IsStore(store) && limit > 0
    requires IsReply(reply, store, Take(Sorted(Remaining(store, prefix, cursor)), limit + 1))
    requires page.entries == Take(reply, limit) && page.next == if limit < |reply| then reply[limit].key else []
    ensures IsPage(page, store, prefix, cursor, limit)
  {
  }

  lemma ServedReply(server: (Bytes, Bytes, nat) -> seq<Entry>, store: map<Bytes, Entry>, start: Bytes, end: Bytes, n: nat)
    requires Serves(server, store) && n > 0
    ensures IsReply(server(start, end, n), store, Take(Sorted(set k | k in store && InRange(start, end, k)), n))
  {
  }

  method List(server: (Bytes, Bytes, nat) -> seq<Entry>, ghost store: map<Bytes, Entry>,
              prefix: Bytes, cursor: Bytes, limit: int) returns (r: Result<Page, ListError>)
    requires IsStore(store) && Serves(server, store)
    ensures r == Err(LimitNotPositive) <==> limit < 1
    ensures r == Err(CursorOutsidePrefix) <==> limit >= 1 && cursor != [] && !(prefix <= cursor)
    ensures r.Ok? ==> IsPage(r.value, store, prefix, cursor, limit)
  {
    if limit < 1 { return Err(LimitNotPositive); }
    if cursor != [] && !(prefix <= cursor) { return Err(CursorOutsidePrefix); }
    var start: Bytes := prefix;
    if start == [] { start := [0]; }
    if cursor != [] { start := cursor; }
    var end: Bytes := [0];
    if prefix != [] { end := PrefixRangeEnd(prefix); }
    var reply := server(start, end, limit + 1);
    var page := CutPage(reply, limit);
    ServedReply(server, store, start, end, limit + 1);
    RangeIsPrefix(store, prefix, cursor, start, end);
    CutIsPage(reply, page, store, prefix, cursor, limit);
    r := Ok(page);
  }

  // ----- Following the cursors -----

  /** Resuming at an element gives the listing from that element on. */
  lemma SortedResumes(keys: set<Bytes>, n: nat)
    requires n < |keys|
    ensures var from := Sorted(keys)[n];
      Sorted(set k | k in keys && !KeyLess(k, from)) == Sorted(keys)[n..]
  {
    KeyLessIsOrder();
    var l := Sorted(keys);
    var from := set k | k in keys && !KeyLess(k, l[n]);
    var tail := l[n..];
    forall k | k in tail ensures k in from {
      var i :| 0 <= i < |tail| && tail[i] == k;
      assert l[n + i] in l && (i == 0 || KeyLess(l[n], l[n + i]));
    }
    forall k | k in from ensures k in tail {
      assert k in l;
      var i :| 0 <= i < |l| && l[i] == k;
      assert i >= n;
      assert tail[i - n] == k;
    }
    ListingUnique(tail, from, KeyLess);
  }

  lemma NextRemaining(page: Page, store: map<Bytes, Entry>, prefix: Bytes, cursor: Bytes, limit: int)
    requires IsStore(store) && IsPage(page, store, prefix, cursor, limit) && page.next != []
    ensures prefix <= page.next
    ensures Sorted(Remaining(store, prefix, page.next)) == Sorted(Remaining(store, prefix, cursor))[limit..]
    ensures |Remaining(store, prefix, page.next)| < |Remaining(store, prefix, cursor)|
  {
    var keys := Remaining(store, prefix, cursor);
    var l := Sorted(keys);
    assert l[limit] in l;
    SortedResumes(keys, limit);
    assert Remaining(store, prefix, page.next) == set k | k in keys && !KeyLess(k, l[limit]) by {
      forall k: Bytes | cursor != [] && prefix <= k && !KeyLess(k, l[limit]) ensures !KeyLess(k, cursor) {
        NotBefore(cursor, l[limit], k);
      }
    }
  }

  /** Pages obtained one after the other, each from the cursor the one before returned. */
  ghost predicate IsWalk(pages: seq<Page>, store: map<Bytes, Entry>, prefix: Bytes, cursor: Bytes, limits: seq<int>) {
    && |pages| == |limits| && pages != []
    && IsPage(pages[0], store, prefix, cursor, limits[0])
    && (|pages| > 1 ==> pages[0].next != [] && IsWalk(pages[1..], store, prefix, pages[0].next, limits[1..]))
  }

  function AllEntries(pages: seq<Page>): seq<Entry> {
    if pages == [] then [] else pages[0].entries + AllEntries(pages[1..])
  }

  lemma ReplyAppend(a: seq<Entry>, b: seq<Entry>, store: map<Bytes, Entry>, keys: seq<Bytes>, n: nat)
    requires n <= |keys| && IsReply(a, store, keys[..n]) && IsReply(b, store, keys[n..])
    ensures IsReply(a + b, store, keys)
  {
    assert forall i :: n <= i < |keys| ==> keys[n..][i - n] == keys[i];
  }

  lemma WalkTail(pages: seq<Page>, store: map<Bytes, Entry>, prefix: Bytes, cursor: Bytes, limits: seq<int>)
    requires IsWalk(pages, store, prefix, cursor, limits) && |pages| > 1
    ensures IsWalk(pages[1..], store, prefix, pages[0].next, limits[1..])
    ensures pages[1..][|pages[1..]| - 1] == pages[|pages| - 1]
  {
  }

  lemma LastPage(page: Page, store: map<Bytes, Entry>, prefix: Bytes, cursor: Bytes, limit: int)
    requires IsStore(store) && IsPage(page, store, prefix, cursor, limit) && page.next == []
    ensures IsReply(page.entries, store, Sorted(Remaining(store, prefix, cursor)))
  {
    var l := Sorted(Remaining(store, prefix, cursor));
    assert forall i :: 0 <= i < |l| ==> l[i] in l;
  }

  lemma PageAppend(page: Page, rest: seq<Entry>, store: map<Bytes, Entry>, prefix: Bytes, cursor: Bytes, limit: int)
    requires IsStore(store) && IsPage(page, store, prefix, cursor, limit) && page.next != []
    requires IsReply(rest, store, Sorted(Remaining(store, prefix, cursor))[limit..])
    ensures IsReply(page.entries + rest, store, Sorted(Remaining(store, prefix, cursor)))
  {
    ReplyAppend(page.entries, rest, store, Sorted(Remaining(store, prefix, cursor)), limit);
  }

  /** Following the cursors ends: no walk is longer than the number of keys that remain. */
  lemma {:induction false} WalkEnds(pages: seq<Page>, store: map<Bytes, Entry>, prefix: Bytes, cursor: Bytes, limits: seq<int>)
    requires IsStore(store) && IsWalk(pages, store, prefix, cursor, limits)
    ensures |pages| == 1 || |pages| <= |Remaining(store, prefix, cursor)|
    decreases |pages|
  {
    if |pages| > 1 {
      NextRemaining(pages[0], store, prefix, cursor, limits[0]);
      WalkEnds(pages[1..], store, prefix, pages[0].next, limits[1..]);
    }
  }

  /** At the end of the walk, with any page sizes, every remaining key was returned once, in order. */
  lemma {:induction false} WalkListsEveryKey(pages: seq<Page>, store: map<Bytes, Entry>, prefix: Bytes, cursor: Bytes, limits: seq<int>)
    requires IsStore(store) && IsWalk(pages, store, prefix, cursor, limits) && pages[|pages| - 1].next == []
    ensures IsReply(AllEntries(pages), store, Sorted(Remaining(store, prefix, cursor)))
    decreases |pages|
  {
    if |pages| == 1 {
      LastPage(pages[0], store, prefix, cursor, limits[0]);
      assert AllEntries(pages[1..]) == [];
    } else {
      WalkTail(pages, store, prefix, cursor, limits);
      NextRemaining(pages[0], store, prefix, cursor, limits[0]);
      WalkListsEveryKey(pages[1..], store, prefix, pages[0].next, limits[1..]);
      PageAppend(pages[0], AllEntries(pages[1..]), store, prefix, cursor, limits[0]);
    }
  }

  /** From the empty cursor that is every key with the prefix, for every prefix. */
  lemma PrefixIsListedOnce(pages: seq<Page>, store: map<Bytes, Entry>, prefix: Bytes, limits: seq<int>)
    requires IsStore(store) && IsWalk(pages, store, prefix, [], limits) && pages[|pages| - 1].next == []
    ensures IsReply(AllEntries(pages), store, Sorted(set k | k in store && prefix <= k))
  {
    WalkListsEveryKey(pages, store, prefix, [], limits);
    assert Remaining(store, prefix, []) == set k | k in store && prefix <= k;
  }

  lemma PageExists(store: map<Bytes, Entry>, prefix: Bytes, cursor: Bytes, limit: int) returns (page: Page)
    requires limit > 0
    ensures IsPage(page, store, prefix, cursor, limit)
  {
    var rest := Sorted(Remaining(store, prefix, cursor));
    var keys := Take(rest, limit);
    assert forall i :: 0 <= i < |keys| ==> rest[i] in rest;
    page := Page(seq(|keys|, i requires 0 <= i < |keys| => store[keys[i]]), if limit < |rest| then rest[limit] else []);
  }

  /** On a fixed store, following the cursors reaches a page without a next cursor, whatever the page size. */
  lemma {:induction false} WalkExists(store: map<Bytes, Entry>, prefix: Bytes, cursor: Bytes, limit: int)
    returns (pages: seq<Page>, limits: seq<int>)
    requires IsStore(store) && limit > 0
    ensures IsWalk(pages, store, prefix, cursor, limits) && pages[|pages| - 1].next == []
    ensures forall i :: 0 <= i < |limits| ==> limits[i] == limit
    decreases |Remaining(store, prefix, cursor)|
  {
    var page := PageExists(store, prefix, cursor, limit);
    pages, limits := [page], [limit];
    if page.next != [] {
      NextRemaining(page, store, prefix, cursor, limit);
      var ps, ns := WalkExists(store, prefix, page.next, limit);
      LongerWalk(page, store, prefix, cursor, limit, ps, ns);
      pages, limits := [page] + ps, [limit] + ns;
    }
  }

  lemma LongerWalk(page: Page, store: map<Bytes, Entry>, prefix: Bytes, cursor: Bytes, limit: int,
                   pages: seq<Page>, limits: seq<int>)
    requires IsPage(page, store, prefix, cursor, limit) && page.next != []
    requires IsWalk(pages, store, prefix, page.next, limits)
    ensures IsWalk([page] + pages, store, prefix, cursor, [limit] + limits)
    ensures ([page] + pages)[|pages|] == pages[|pages| - 1]
  {
    assert ([page] + pages)[1..] == pages && ([limit] + limits)[1..] == limits;
  }
}
