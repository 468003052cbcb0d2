/**
 The sync feed: the rows a client has not seen, by ascending version number, a page at a time,
 with one row fetched beyond the limit to learn whether there are more.
 */
module Feed {
  import opened Wrappers
  import opened Schema
  import opened Invariants

  // ---- ORDER BY ----

  ghost predicate Injective(ids: set<int>, key: map<int, int>) {
    && ids <= key.Keys
    && forall i, j :: i in ids && j in ids && key[i] == key[j] ==> i == j
  }

  lemma {:induction false} LeastExists(ids: set<int>, key: map<int, int>)
    requires ids != {} && ids <= key.Keys
    ensures exists i :: i in ids && forall j :: j in ids ==> key[i] <= key[j]
  {
    HasMember(ids);
    var i :| i in ids;
    if ids != {i} {
      LeastExists(ids - {i}, key);
      var k :| k in ids - {i} && forall j :: j in ids - {i} ==> key[k] <= key[j];
      var least := if key[i] <= key[k] then i else k;
      assert forall j :: j in ids ==> j == i || j in ids - {i};
      assert forall j :: j in ids ==> key[least] <= key[j];
    }
  }

  /** `listed` has the members of `ids`, each once, by increasing key. */
  ghost predicate Lists(listed: seq<int>, ids: set<int>, key: map<int, int>) {
    && ids <= key.Keys
    && (forall k :: 0 <= k < |listed| ==> listed[k] in ids)
    && (forall i :: i in ids ==> i in listed)
    && (forall a, b :: 0 <= a < b < |listed| ==>
          listed[a] in ids && listed[b] in ids && key[listed[a]] < key[listed[b]])
  }

  function Ordered(ids: set<int>, key: map<int, int>): (listed: seq<int>)
    requires Injective(ids, key)
    ensures Lists(listed, ids, key)
  {
    if ids == {} then []
    else
      LeastExists(ids, key);
      var i :| i in ids && forall j :: j in ids ==> key[i] <= key[j];
      [i] + Ordered(ids - {i}, key)
  }

  lemma ListsNothing(listed: seq<int>, ids: set<int>, key: map<int, int>)
    requires Lists(listed, ids, key)
    ensures listed == [] <==> ids == {}
  {
    if listed == [] {
      forall i ensures i !in ids { assert i in ids ==> i in listed; }
    } else {
      var first := listed[0];
      assert first in ids;
    }
  }

  function Above(ids: set<int>, key: map<int, int>, bound: int): set<int>
    requires ids <= key.Keys
  {
    set i | i in ids && key[i] > bound
  }

  /** There is one way to list a set by increasing key. */
  lemma {:induction false} OneOrder(a: seq<int>, b: seq<int>, ids: set<int>, key: map<int, int>)
    requires Lists(a, ids, key) && Lists(b, ids, key)
    ensures a == b
  {
    ListsNothing(a, ids, key);
    ListsNothing(b, ids, key);
    if a != [] {
      var first, first' := a[0], b[0];
      assert first in ids && first in b && first' in ids && first' in a;
      var m :| 0 <= m < |b| && b[m] == first;
      var n :| 0 <= n < |a| && a[n] == first';
      assert m == 0 && n == 0;
      TailLists(a, ids, key, 1);
      TailLists(b, ids, key, 1);
      OneOrder(a[1..], b[1..], Above(ids, key, key[a[0]]), key);
    }
  }

  /** What follows the first n entries lists the members with a greater key than theirs. */
  lemma TailLists(listed: seq<int>, ids: set<int>, key: map<int, int>, n: nat)
    requires Lists(listed, ids, key) && 0 < n <= |listed|
    ensures listed[n - 1] in ids
    ensures Lists(listed[n..], Above(ids, key, key[listed[n - 1]]), key)
  {
    var rest := Above(ids, key, key[listed[n - 1]]);
    forall k | 0 <= k < |listed[n..]| ensures listed[n..][k] in rest {
      assert listed[n..][k] == listed[n + k];
    }
    forall k | 0 <= k < n ensures listed[k] !in rest {
      assert k < n - 1 ==> key[listed[k]] < key[listed[n - 1]];
    }
    forall i | i in rest ensures i in listed[n..] {
      assert i in listed;
      var k :| 0 <= k < |listed| && listed[k] == i;
      assert listed[n..][k - n] == i;
    }
  }

  // ---- the sync feed ----

  /** Each part of the compatibility filter may be absent; an empty string filters nothing. */
  datatype Filter = Filter(algorithm: Option<string>, algorithmVersion: Option<string>,
      normalizationVersion: Option<string>)

  const UNFILTERED := Filter(None, None, None)

  predicate Admits(wanted: Option<string>, actual: string) {
    wanted.None? || wanted.value == "" || wanted.value == actual
  }

  predicate Matches(f: Filter, t: Triple) {
    && Admits(f.algorithm, t.algorithm)
    && Admits(f.algorithmVersion, t.algorithmVersion)
    && Admits(f.normalizationVersion, t.normalizationVersion)
  }

  /** The requester is never sent its own contributions. */
  predicate Visible(row: Row, me: int, f: Filter) {
    row.consumer != me && Matches(f, row.triple)
  }

  datatype Page = Page(rows: seq<Peer>, next: int, hasMore: bool)

  function Seqs(rows: map<int, Row>): map<int, int> {
    map id | id in rows :: rows[id].syncSeq
  }

  function Selected(rows: map<int, Row>, me: int, f: Filter, since: int): set<int> {
    set id | id in rows && rows[id].syncSeq > since && Visible(rows[id], me, f)
  }

  function Peers(rows: map<int, Row>, ids: seq<int>): (r: seq<Peer>)
    requires forall k :: 0 <= k < |ids| ==> ids[k] in rows
    ensures |r| == |ids|
    ensures forall k :: 0 <= k < |r| ==> r[k] == PeerOf(ids[k], rows[ids[k]])
  {
    seq(|ids|, k requires 0 <= k < |ids| => PeerOf(ids[k], rows[ids[k]]))
  }

  function Take<T>(s: seq<T>, n: nat): seq<T> {
    if n <= |s| then s[..n] else s
  }

  /** The query returns at most `limit + 1` of the ordered ids; the surplus one is dropped again. */
  function PageOf(rows: map<int, Row>, ordered: seq<int>, since: int, limit: nat): Page
    requires forall k :: 0 <= k < |ordered| ==> ordered[k] in rows
  {
    var fetched := Take(ordered, limit + 1);
    var kept := Take(fetched, limit);
    Page(Peers(rows, kept), if kept == [] then since else rows[kept[|kept| - 1]].syncSeq, |fetched| > limit)
  }

  function SyncPage(rows: map<int, Row>, me: int, f: Filter, since: int, limit: nat): Page
    requires DistinctSeqs(rows)
  {
    PageOf(rows, Ordered(Selected(rows, me, f, since), Seqs(rows)), since, limit)
  }

  /** The endpoint's clamp: at least one row a page, whatever was asked and configured. */
  function ClampLimit(requested: int, cap: int): nat {
    var low := if requested <= cap then requested else cap;
    if low >= 1 then low else 1
  }

  ghost predicate FromRow(rows: map<int, Row>, me: int, f: Filter, since: int, next: int, p: Peer) {
    && p.id in rows && p == PeerOf(p.id, rows[p.id])
    && Visible(rows[p.id], me, f)
    && since < p.syncSeq <= next
  }

  /** A page is a gap-free, ascending stretch of the feed, and `hasMore` says whether anything lies beyond it. */
  ghost predicate IsPage(rows: map<int, Row>, me: int, f: Filter, since: int, page: Page) {
    && since <= page.next
    && (forall k :: 0 <= k < |page.rows| ==> FromRow(rows, me, f, since, page.next, page.rows[k]))
    && (forall a, b :: 0 <= a < b < |page.rows| ==>
          page.rows[a].syncSeq < page.rows[b].syncSeq && page.rows[a].id != page.rows[b].id)
    && (forall id :: id in rows && Visible(rows[id], me, f) && since < rows[id].syncSeq <= page.next ==>
          PeerOf(id, rows[id]) in page.rows)
    && (page.hasMore <==> exists id :: id in rows && Visible(rows[id], me, f) && rows[id].syncSeq > page.next)
    && page.next == if page.rows == [] then since else page.rows[|page.rows| - 1].syncSeq
  }

  lemma PageOfSplits(rows: map<int, Row>, ordered: seq<int>, since: int, limit: nat)
    requires forall k :: 0 <= k < |ordered| ==> ordered[k] in rows
    requires limit >= 1
    ensures var n := if limit <= |ordered| then limit else |ordered|;
            PageOf(rows, ordered, since, limit) ==
            Page(Peers(rows, ordered[..n]), if n == 0 then since else rows[ordered[n - 1]].syncSeq, n < |ordered|)
  {
    assert Take(Take(ordered, limit + 1), limit) == Take(ordered, limit);
    assert ordered[..|ordered|] == ordered;
  }

  lemma PageOfIsPage(rows: map<int, Row>, me: int, f: Filter, since: int, ordered: seq<int>, limit: nat)
    requires Lists(ordered, Selected(rows, me, f, since), Seqs(rows)) && limit >= 1
    ensures var page := PageOf(rows, ordered, since, limit);
            && IsPage(rows, me, f, since, page)
            && |page.rows| <= limit
            && (page.hasMore ==> |page.rows| == limit)
  {
    var page := PageOf(rows, ordered, since, limit);
    PageOfSplits(rows, ordered, since, limit);
    PrefixIsBelow(rows, ordered, Selected(rows, me, f, since), |page.rows|, page.next);
    PrefixIsPage(rows, me, f, since, ordered, |page.rows|, page);
  }

  lemma PrefixIsPage(rows: map<int, Row>, me: int, f: Filter, since: int, ordered: seq<int>, n: nat, page: Page)
    requires Lists(ordered, Selected(rows, me, f, since), Seqs(rows)) && n <= |ordered|
    requires forall k :: 0 <= k < |ordered| ==> ordered[k] in Selected(rows, me, f, since)
    requires forall k :: 0 <= k < |ordered| ==> (k < n <==> rows[ordered[k]].syncSeq <= page.next)
    requires forall a, b :: 0 <= a < b < |ordered| ==>
      rows[ordered[a]].syncSeq < rows[ordered[b]].syncSeq && ordered[a] != ordered[b]
    requires page.rows == Peers(rows, ordered[..n]) && (page.hasMore <==> n < |ordered|)
    requires if n == 0 then page.next == since else page.next == rows[ordered[n - 1]].syncSeq
    ensures IsPage(rows, me, f, since, page)
  {
    PrefixIsComplete(rows, me, f, since, ordered, n, page);
    if page.hasMore {
      var beyond := ordered[n];
      assert beyond in rows && Visible(rows[beyond], me, f) && rows[beyond].syncSeq > page.next;
    }
  }

  lemma PrefixIsComplete(rows: map<int, Row>, me: int, f: Filter, since: int, ordered: seq<int>, n: nat, page: Page)
    requires Lists(ordered, Selected(rows, me, f, since), Seqs(rows)) && n <= |ordered|
    requires forall k :: 0 <= k < |ordered| ==> ordered[k] in rows && (k < n <==> rows[ordered[k]].syncSeq <= page.next)
    requires page.rows == Peers(rows, ordered[..n]) && (page.hasMore <==> n < |ordered|)
    ensures forall id :: id in Selected(rows, me, f, since) ==>
              if rows[id].syncSeq <= page.next then PeerOf(id, rows[id]) in page.rows else page.hasMore
  {
    forall id | id in Selected(rows, me, f, since)
      ensures if rows[id].syncSeq <= page.next then PeerOf(id, rows[id]) in page.rows else page.hasMore
    {
      var k :| 0 <= k < |ordered| && ordered[k] == id;
      if k < n { assert page.rows[k] == PeerOf(id, rows[id]); }
    }
  }

  /** In an ordered list, the first n entries are those numbered up to the n-th. */
  lemma PrefixIsBelow(rows: map<int, Row>, ordered: seq<int>, ids: set<int>, n: nat, next: int)
    requires Lists(ordered, ids, Seqs(rows))
    requires n <= |ordered| && (n == 0 ==> ordered == []) && (n > 0 ==> next == rows[ordered[n - 1]].syncSeq)
    ensures forall k :: 0 <= k < |ordered| ==> ordered[k] in ids && (k < n <==> rows[ordered[k]].syncSeq <= next)
    ensures forall a, b :: 0 <= a < b < |ordered| ==>
      rows[ordered[a]].syncSeq < rows[ordered[b]].syncSeq && ordered[a] != ordered[b]
  {
    var key := Seqs(rows);
    forall a, b | 0 <= a < b < |ordered| ensures rows[ordered[a]].syncSeq < rows[ordered[b]].syncSeq {
      assert key[ordered[a]] < key[ordered[b]];
    }
  }

  lemma SyncPageIsPage(rows: map<int, Row>, me: int, f: Filter, since: int, limit: nat)
    requires DistinctSeqs(rows) && limit >= 1
    ensures var page := SyncPage(rows, me, f, since, limit);
            && IsPage(rows, me, f, since, page)
            && |page.rows| <= limit
            && (page.hasMore ==> |page.rows| == limit)
  {
    PageOfIsPage(rows, me, f, since, Ordered(Selected(rows, me, f, since), Seqs(rows)), limit);
  }

  lemma NoRowPage(me: int, f: Filter, since: int)
    ensures SyncPage(map[], me, f, since, 1) == Page([], since, false)
  {
    var page := SyncPage(map[], me, f, since, 1);
    SyncPageIsPage(map[], me, f, since, 1);
    FirstIsFromRow(map[], me, f, since, page);
  }

  lemma OneRowPage(id: int, row: Row, me: int, f: Filter, since: int)
    ensures SyncPage(map[id := row], me, f, since, 1) ==
            if Visible(row, me, f) && row.syncSeq > since then Page([PeerOf(id, row)], row.syncSeq, false)
            else Page([], since, false)
  {
    var rows := map[id := row];
    SyncPageIsPage(rows, me, f, since, 1);
    OneRowIsPage(rows, id, me, f, since, SyncPage(rows, me, f, since, 1));
  }

  lemma OneRowIsPage(rows: map<int, Row>, id: int, me: int, f: Filter, since: int, page: Page)
    requires rows.Keys == {id} && IsPage(rows, me, f, since, page)
    requires |page.rows| <= 1 && (page.hasMore ==> page.rows != [])
    ensures page == if Visible(rows[id], me, f) && rows[id].syncSeq > since
                    then Page([PeerOf(id, rows[id])], rows[id].syncSeq, false)
                    else Page([], since, false)
  {
    FirstIsFromRow(rows, me, f, since, page);
    if Visible(rows[id], me, f) && rows[id].syncSeq > since {
      assert page.rows == [] ==> page.hasMore;
    }
  }

  lemma FirstIsFromRow(rows: map<int, Row>, me: int, f: Filter, since: int, page: Page)
    requires IsPage(rows, me, f, since, page)
    ensures page.rows == [] || FromRow(rows, me, f, since, page.next, page.rows[0])
  {
  }

  /** Every record of a page says of its row what the row says. */
  lemma PageMirrors(rows: map<int, Row>, me: int, f: Filter, since: int, page: Page)
    requires IsPage(rows, me, f, since, page)
    ensures forall p :: p in page.rows ==> p.id in rows && Mirrors(p, p.id, rows[p.id])
  {
    forall k | 0 <= k < |page.rows|
      ensures page.rows[k].id in rows && Mirrors(page.rows[k], page.rows[k].id, rows[page.rows[k].id])
    {
      assert FromRow(rows, me, f, since, page.next, page.rows[k]);
    }
  }

  // ---- paging through an unchanged store ----

  /** All rows after `since`, in one piece. */
  function WholeFeed(rows: map<int, Row>, me: int, f: Filter, since: int): seq<Peer>
    requires DistinctSeqs(rows)
  {
    Peers(rows, Ordered(Selected(rows, me, f, since), Seqs(rows)))
  }

  /** The client's loop over pages; the k-th request may ask for any limit. */
  function Pages(rows: map<int, Row>, me: int, f: Filter, since: int, request: nat -> int, cap: int, k: nat): seq<Peer>
    requires DistinctSeqs(rows)
    decreases |Selected(rows, me, f, since)|
  {
    var page := SyncPage(rows, me, f, since, ClampLimit(request(k), cap));
    SyncPageIsPage(rows, me, f, since, ClampLimit(request(k), cap));
    if page.hasMore then
      SelectionShrinks(rows, me, f, since, page);
      page.rows + Pages(rows, me, f, page.next, request, cap, k + 1)
    else page.rows
  }

  lemma SelectionShrinks(rows: map<int, Row>, me: int, f: Filter, since: int, page: Page)
    requires IsPage(rows, me, f, since, page) && page.rows != []
    ensures |Selected(rows, me, f, page.next)| < |Selected(rows, me, f, since)|
  {
    var before, after := Selected(rows, me, f, since), Selected(rows, me, f, page.next);
    var id := page.rows[0].id;
    assert FromRow(rows, me, f, since, page.next, page.rows[0]);
    assert before == after + (before - after) && id in before - after;
  }

  /** The listing after the first `limit` entries is the listing of what lies beyond them. */
  lemma RestOfListing(rows: map<int, Row>, me: int, f: Filter, since: int, ordered: seq<int>, later: seq<int>,
      limit: nat, next: int)
    requires 1 <= limit < |ordered|
    requires Lists(ordered, Selected(rows, me, f, since), Seqs(rows))
    requires next == rows[ordered[limit - 1]].syncSeq
    requires Lists(later, Selected(rows, me, f, next), Seqs(rows))
    ensures ordered == ordered[..limit] + later
  {
    var ids, key := Selected(rows, me, f, since), Seqs(rows);
    TailLists(ordered, ids, key, limit);
    var last := ordered[limit - 1];
    assert last in ids;
    assert Selected(rows, me, f, next) == Above(ids, key, key[last]);
    OneOrder(ordered[limit..], later, Selected(rows, me, f, next), key);
  }

  lemma PeersAppend(rows: map<int, Row>, a: seq<int>, b: seq<int>)
    requires forall k :: 0 <= k < |a| ==> a[k] in rows
    requires forall k :: 0 <= k < |b| ==> b[k] in rows
    ensures forall k :: 0 <= k < |a + b| ==> (a + b)[k] in rows
    ensures Peers(rows, a + b) == Peers(rows, a) + Peers(rows, b)
  {
  }

  /** A page followed by the feed after it is the feed. */
  lemma FeedSplits(rows: map<int, Row>, me: int, f: Filter, since: int, ordered: seq<int>, later: seq<int>, limit: nat)
    requires limit >= 1 && Lists(ordered, Selected(rows, me, f, since), Seqs(rows))
    requires var page := PageOf(rows, ordered, since, limit);
             page.hasMore ==> Lists(later, Selected(rows, me, f, page.next), Seqs(rows))
    ensures var page := PageOf(rows, ordered, since, limit);
            Peers(rows, ordered) == if page.hasMore then page.rows + Peers(rows, later) else page.rows
  {
    var page := PageOf(rows, ordered, since, limit);
    PageOfSplits(rows, ordered, since, limit);
    if page.hasMore {
      RestOfListing(rows, me, f, since, ordered, later, limit, page.next);
      PeersAppend(rows, ordered[..limit], later);
    } else {
      assert ordered[..|ordered|] == ordered;
    }
  }

  /** Whatever limits are asked for, the pages end and concatenate to the whole feed: every row once, in order. */
  lemma {:induction false} PagesAreTheFeed(rows: map<int, Row>, me: int, f: Filter, since: int, request: nat -> int,
      cap: int, k: nat)
    requires DistinctSeqs(rows)
    ensures Pages(rows, me, f, since, request, cap, k) == WholeFeed(rows, me, f, since)
    decreases |Selected(rows, me, f, since)|
  {
    var limit := ClampLimit(request(k), cap);
    var page := SyncPage(rows, me, f, since, limit);
    SyncPageIsPage(rows, me, f, since, limit);
    WholeFeedSplits(rows, me, f, since, limit);
    if page.hasMore {
      SelectionShrinks(rows, me, f, since, page);
      PagesAreTheFeed(rows, me, f, page.next, request, cap, k + 1);
    }
  }

  lemma WholeFeedSplits(rows: map<int, Row>, me: int, f: Filter, since: int, limit: nat)
    requires DistinctSeqs(rows) && limit >= 1
    ensures var page := SyncPage(rows, me, f, since, limit);
            WholeFeed(rows, me, f, since) ==
            if page.hasMore then page.rows + WholeFeed(rows, me, f, page.next) else page.rows
  {
    var page := SyncPage(rows, me, f, since, limit);
    var ordered, later := Ordered(Selected(rows, me, f, since), Seqs(rows)),
      Ordered(Selected(rows, me, f, page.next), Seqs(rows));
    FeedSplits(rows, me, f, since, ordered, later, limit);
  }

  /** The whole feed holds exactly the visible rows after `since`, each once, by ascending version number. */
  lemma WholeFeedIsComplete(rows: map<int, Row>, me: int, f: Filter, since: int)
    requires DistinctSeqs(rows)
    ensures var feed := WholeFeed(rows, me, f, since);
            && (forall p :: p in feed <==>
                  p.id in rows && p == PeerOf(p.id, rows[p.id]) && Visible(rows[p.id], me, f) && p.syncSeq > since)
            && (forall a, b :: 0 <= a < b < |feed| ==> feed[a].syncSeq < feed[b].syncSeq && feed[a].id != feed[b].id)
  {
    var ids, key := Selected(rows, me, f, since), Seqs(rows);
    var ordered, feed := Ordered(ids, key), WholeFeed(rows, me, f, since);
    forall p ensures p in feed <==> p.id in ids && p == PeerOf(p.id, rows[p.id]) {
      if p in feed {
        var k :| 0 <= k < |feed| && feed[k] == p;
        assert ordered[k] in ids;
      }
      if p.id in ids {
        assert p.id in ordered;
        var k :| 0 <= k < |ordered| && ordered[k] == p.id;
        assert feed[k] == PeerOf(p.id, rows[p.id]);
      }
    }
    forall a, b | 0 <= a < b < |feed| ensures feed[a].syncSeq < feed[b].syncSeq && feed[a].id != feed[b].id {
      assert key[ordered[a]] < key[ordered[b]];
    }
  }
}
