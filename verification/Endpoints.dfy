/**
 The request handlers between a consumer and the store: scopes, clamped bounds, and who is shown what.

 Requests arrive parsed, and replies are values.  Deletion here is a request served without interruption;
 module Trust has its two transactions with anything in between.
 */
module Endpoints {
  import opened Wrappers
  import opened Schema
  import opened Steps
  import opened Invariants
  import opened Feed
  import opened Listing
  import Trust
  import opened Store

  type Caller = Trust.Caller

  datatype ApiError = Forbidden | NotFound

  /** A full record, its encrypted cells opaque, or the minimal one. */
  datatype Detail = Public(peer: Peer) | Full(id: int, row: Row)

  predicate IsAdmin(caller: Caller) {
    Trust.Admin in caller.scopes
  }

  predicate CanSeeSecrets(caller: Caller, row: Row) {
    IsAdmin(caller) || row.consumer == caller.id
  }

  function DetailOf(caller: Caller, id: int, row: Row): Detail {
    if CanSeeSecrets(caller, row) then Full(id, row) else Public(PeerOf(id, row))
  }

  function AtLeast(low: int, n: int): int {
    if n >= low then n else low
  }

  /** An absent or empty part of a filter asks for nothing; any other must be met to the letter. */
  ghost predicate Meets(wanted: Option<string>, actual: string) {
    forall text: string :: wanted == Some(text) && text != "" ==> actual == text
  }

  /** The rows a sync request is about: others' rows numbered after `since` that meet every part of its filter. */
  ghost predicate Asked(row: Row, caller: Caller, since: int, filter: Filter) {
    && row.consumer != caller.id && row.syncSeq > since && row.syncSeq > 0
    && Meets(filter.algorithm, row.triple.algorithm)
    && Meets(filter.algorithmVersion, row.triple.algorithmVersion)
    && Meets(filter.normalizationVersion, row.triple.normalizationVersion)
  }

  lemma AskedIsVisible(row: Row, caller: Caller, since: int, filter: Filter)
    ensures Asked(row, caller, since, filter) <==>
            Visible(row, caller.id, filter) && row.syncSeq > AtLeast(0, since)
  {
    assert filter.algorithm.Some? ==> filter.algorithm == Some(filter.algorithm.value);
    assert filter.algorithmVersion.Some? ==> filter.algorithmVersion == Some(filter.algorithmVersion.value);
    assert filter.normalizationVersion.Some? ==> filter.normalizationVersion == Some(filter.normalizationVersion.value);
  }

  /** A reply to a sync request, by what was asked and the columns of the rows. */
  ghost predicate Answers(page: Page, rows: map<int, Row>, caller: Caller, since: int, limit: int, cap: int,
      filter: Filter)
  {
    var low := if limit < cap then limit else cap;
    var most := if low < 1 then 1 else low;
    && |page.rows| <= most && (page.hasMore ==> |page.rows| == most)
    && page.next == (if page.rows != [] then page.rows[|page.rows| - 1].syncSeq else if since < 0 then 0 else since)
    && (forall p :: p in page.rows ==>
          && p.id in rows && Asked(rows[p.id], caller, since, filter)
          && p.syncSeq == rows[p.id].syncSeq && p.phash == rows[p.id].phash && p.triple == rows[p.id].triple
          && p.category == rows[p.id].category && p.action == rows[p.id].action && p.status == rows[p.id].status)
    && (forall a, b :: 0 <= a < b < |page.rows| ==> page.rows[a].syncSeq < page.rows[b].syncSeq)
    && (forall id :: id in rows && Asked(rows[id], caller, since, filter) && rows[id].syncSeq <= page.next ==>
          exists p :: p in page.rows && p.id == id)
    && (page.hasMore <==>
         exists id :: id in rows && Asked(rows[id], caller, since, filter) && rows[id].syncSeq > page.next)
  }

  lemma PageAnswers(page: Page, rows: map<int, Row>, caller: Caller, since: int, limit: int, cap: int, filter: Filter)
    requires IsPage(rows, caller.id, filter, AtLeast(0, since), page)
    requires |page.rows| <= ClampLimit(limit, cap) && (page.hasMore ==> |page.rows| == ClampLimit(limit, cap))
    ensures Answers(page, rows, caller, since, limit, cap, filter)
  {
    forall id | id in rows
      ensures Asked(rows[id], caller, since, filter) <==>
              Visible(rows[id], caller.id, filter) && rows[id].syncSeq > AtLeast(0, since)
    {
      AskedIsVisible(rows[id], caller, since, filter);
    }
    forall k | 0 <= k < |page.rows|
      ensures page.rows[k].id in rows && Mirrors(page.rows[k], page.rows[k].id, rows[page.rows[k].id])
      ensures Asked(rows[page.rows[k].id], caller, since, filter)
    {
      assert FromRow(rows, caller.id, filter, AtLeast(0, since), page.next, page.rows[k]);
    }
    forall id | id in rows && Asked(rows[id], caller, since, filter) && rows[id].syncSeq <= page.next
      ensures exists p :: p in page.rows && p.id == id
    {
      assert PeerOf(id, rows[id]) in page.rows;
    }
  }

  /**
   Whatever was asked for, the reply is a page of the feed that makes progress and is no longer than asked or
   configured.
   */
  method SyncFingerprints(store: FingerprintStore, caller: Caller, since: int, limit: int, cap: int, filter: Filter)
    returns (reply: Result<Page, ApiError>)
    requires store.Valid()
    ensures reply.Err? <==> Trust.Read !in caller.scopes
    ensures reply.Err? ==> reply.error == Forbidden
    ensures reply.Ok? ==>
      && IsPage(store.rows, caller.id, filter, AtLeast(0, since), reply.value)
      && Answers(reply.value, store.rows, caller, since, limit, cap, filter)
      && (reply.value.hasMore ==> reply.value.rows != [])
  {
    if Trust.Read !in caller.scopes { return Err(Forbidden); }
    var page := store.Sync(caller.id, AtLeast(0, since), ClampLimit(limit, cap), filter);
    PageAnswers(page, store.rows, caller, since, limit, cap, filter);
    return Ok(page);
  }

  /**
   A hidden row exists only for its owner and admins, a deleted one for nobody; they are shown every column, and
   anybody else the peer record.
   */
  method GetFingerprint(store: FingerprintStore, caller: Caller, id: int) returns (reply: Result<Detail, ApiError>)
    ensures reply.Ok? <==>
      && Trust.Read in caller.scopes && id in store.rows
      && (store.rows[id].status == Active
          || (store.rows[id].status == Hidden
              && (Trust.Admin in caller.scopes || store.rows[id].consumer == caller.id)))
    ensures reply.Err? ==> (reply.error == Forbidden <==> Trust.Read !in caller.scopes)
    ensures reply.Ok? ==> (reply.value.Full? <==> Trust.Admin in caller.scopes || store.rows[id].consumer == caller.id)
    ensures reply.Ok? && reply.value.Full? ==> reply.value.id == id && reply.value.row == store.rows[id]
    ensures reply.Ok? && reply.value.Public? ==>
      var p, row := reply.value.peer, store.rows[id];
      && p.id == id && p.syncSeq == row.syncSeq && p.phash == row.phash && p.triple == row.triple
      && p.category == row.category && p.action == row.action && p.status == row.status
  {
    if Trust.Read !in caller.scopes { return Err(Forbidden); }
    var row := store.Get(id);
    if row.None? || row.value.status == Deleted { return Err(NotFound); }
    if row.value.status == Hidden && !CanSeeSecrets(caller, row.value) { return Err(NotFound); }
    return Ok(DetailOf(caller, id, row.value));
  }

  /** What is looked up for a request: a consumer's own rows only, and hidden ones for admins only. */
  function Narrowed(caller: Caller, q: Query): Query {
    if IsAdmin(caller) then q else q.(consumer := Some(caller.id), includeHidden := false)
  }

  function Details(caller: Caller, rows: map<int, Row>, ids: seq<int>): (r: seq<Detail>)
    requires forall k :: 0 <= k < |ids| ==> ids[k] in rows
    ensures |r| == |ids| && forall k :: 0 <= k < |r| ==> r[k] == DetailOf(caller, ids[k], rows[ids[k]])
  {
    seq(|ids|, k requires 0 <= k < |ids| => DetailOf(caller, ids[k], rows[ids[k]]))
  }

  /** The rows a browse request is about, by the caller's scopes, the query and the columns. */
  ghost predicate Browsed(row: Row, caller: Caller, q: Query) {
    && (row.status == Active || (row.status == Hidden && q.includeHidden && Trust.Admin in caller.scopes))
    && (Trust.Admin in caller.scopes || row.consumer == caller.id)
    && Meets(q.category, row.category) && Meets(q.algorithm, row.triple.algorithm)
    && (forall consumer :: q.consumer == Some(consumer) ==> row.consumer == consumer)
  }

  lemma BrowsedIsListable(row: Row, caller: Caller, q: Query)
    requires IsAdmin(caller) || q.consumer == None || q.consumer == Some(caller.id)
    ensures Browsed(row, caller, q) <==> Listable(row, Narrowed(caller, q))
  {
    assert q.category.Some? ==> q.category == Some(q.category.value);
    assert q.algorithm.Some? ==> q.algorithm == Some(q.algorithm.value);
    assert q.consumer.Some? ==> q.consumer == Some(q.consumer.value);
  }

  ghost function AllBrowsed(rows: map<int, Row>, caller: Caller, q: Query): set<int> {
    set id | id in rows && Browsed(rows[id], caller, q)
  }

  /**
   A reply to a browse request: the k-th entry has exactly offset + k browsed rows newer than it, and a reply with
   fewer entries than the bound has come to the end.
   */
  ghost predicate Listed(reply: seq<Detail>, rows: map<int, Row>, caller: Caller, q: Query, limit: int, offset: int,
      cap: int)
  {
    var low := if limit < cap then limit else cap;
    var most := if low < 1 then 1 else low;
    var start := if offset < 0 then 0 else offset;
    var all := AllBrowsed(rows, caller, q);
    && |reply| <= most && (|reply| < most ==> |all| <= start + |reply|)
    && forall k :: 0 <= k < |reply| ==>
         && reply[k].Full? && reply[k].id in all && reply[k].row == rows[reply[k].id]
         && |set id | id in all && id > reply[k].id| == start + k
  }

  lemma SliceIsListed(reply: seq<Detail>, rows: map<int, Row>, caller: Caller, q: Query, limit: int, offset: int,
      cap: int, ids: seq<int>)
    requires IsAdmin(caller) || q.consumer == None || q.consumer == Some(caller.id)
    requires ids == Browse(rows, Narrowed(caller, q), ClampLimit(limit, cap), AtLeast(0, offset))
    requires |reply| == |ids| && forall k :: 0 <= k < |ids| ==> ids[k] in rows && reply[k] == Full(ids[k], rows[ids[k]])
    ensures Listed(reply, rows, caller, q, limit, offset, cap)
  {
    var all, start := AllBrowsed(rows, caller, q), AtLeast(0, offset);
    forall id | id in rows ensures Browsed(rows[id], caller, q) <==> Listable(rows[id], Narrowed(caller, q)) {
      BrowsedIsListable(rows[id], caller, q);
    }
    assert all == Wanted(rows, Narrowed(caller, q));
    BrowseRanks(rows, Narrowed(caller, q), ClampLimit(limit, cap), start);
    forall k | 0 <= k < |ids| ensures ids[k] in all && |set id | id in all && id > ids[k]| == start + k {
      assert Rank(all, ids[k]) == start + k;
    }
  }

  /** Browsing shows a consumer its own active rows; only an admin sees others' rows, and hidden ones on request. */
  method ListFingerprints(store: FingerprintStore, caller: Caller, q: Query, limit: int, offset: int, cap: int)
    returns (reply: Result<seq<Detail>, ApiError>)
    ensures reply.Err? <==>
      || Trust.Read !in caller.scopes
      || (Trust.Admin !in caller.scopes && q.consumer.Some? && q.consumer.value != caller.id)
    ensures reply.Err? ==> reply.error == Forbidden
    ensures reply.Ok? ==> Listed(reply.value, store.rows, caller, q, limit, offset, cap)
    ensures reply.Ok? ==>
      forall a, b :: 0 <= a < b < |reply.value| ==>
        reply.value[a].Full? && reply.value[b].Full? && reply.value[a].id > reply.value[b].id
  {
    if Trust.Read !in caller.scopes { return Err(Forbidden); }
    var consumer := q.consumer;
    if !IsAdmin(caller) {
      if consumer.Some? && consumer.value != caller.id { return Err(Forbidden); }
      consumer := Some(caller.id);
    }
    var narrowed := q.(consumer := consumer, includeHidden := q.includeHidden && IsAdmin(caller));
    assert narrowed == Narrowed(caller, q);
    var ids := store.ListFingerprints(narrowed, ClampLimit(limit, cap), AtLeast(0, offset));
    var details := Details(caller, store.rows, ids);
    forall k | 0 <= k < |ids| ensures details[k] == Full(ids[k], store.rows[ids[k]]) {
      assert Listable(store.rows[ids[k]], narrowed);
    }
    SliceIsListed(details, store.rows, caller, q, limit, offset, cap, ids);
    return Ok(details);
  }

  /** The verdict is that of the row's owner and the caller's scopes, and only an allowed deletion changes anything. */
  method DeleteFingerprint(store: FingerprintStore, caller: Caller, id: int, now: int) returns (verdict: Trust.Verdict)
    requires store.Valid()
    modifies store
    ensures store.Valid()
    ensures verdict == Trust.Judge(old(store.State()), caller, id)
    ensures verdict.Forbidden? <==>
      || Trust.Write !in caller.scopes
      || (id in old(store.rows) && old(store.rows)[id].status != Deleted
          && old(store.rows)[id].consumer != caller.id && Trust.Admin !in caller.scopes)
    ensures verdict.NotFound? <==>
      Trust.Write in caller.scopes && (id !in old(store.rows) || old(store.rows)[id].status == Deleted)
    ensures verdict.Allowed? ==>
      && store.rows == old(store.rows)[id :=
           old(store.rows)[id].(status := Deleted, syncSeq := old(store.counter) + 1, updatedAt := now)]
      && store.counter == old(store.counter) + 1
      && store.flags == old(store.flags) && store.hits == old(store.hits)
    ensures store.State() ==
            if verdict.Allowed? then Apply(old(store.State()), Delete(id, now), store.autoHideThreshold)
            else old(store.State())
  {
    if Trust.Write !in caller.scopes { return Trust.Forbidden; }
    var row := store.Get(id);
    if row.None? || row.value.status == Deleted { return Trust.NotFound; }
    if !(row.value.consumer == caller.id || IsAdmin(caller)) { return Trust.Forbidden; }
    var changed := store.SoftDelete(id, now);
    return Trust.Allowed;
  }

  predicate SameToPeers(a: Row, b: Row) {
    && a.syncSeq == b.syncSeq && a.phash == b.phash && a.triple == b.triple && a.category == b.category
    && a.action == b.action && a.status == b.status
  }

  /** Two stores in which every row differs, for a caller, in nothing but what peers are not shown. */
  ghost predicate LookAlike(rows: map<int, Row>, rows': map<int, Row>, me: int) {
    && rows.Keys == rows'.Keys
    && forall id :: id in rows ==> (rows[id].consumer == me <==> rows'[id].consumer == me)
                                   && (rows[id].consumer != me ==> SameToPeers(rows[id], rows'[id]))
  }

  lemma SameFeedFrom(rows: map<int, Row>, rows': map<int, Row>, me: int, f: Filter, since: int, ordered: seq<int>,
      ordered': seq<int>)
    requires LookAlike(rows, rows', me)
    requires Lists(ordered, Selected(rows, me, f, since), Seqs(rows)) &&
      Lists(ordered', Selected(rows', me, f, since), Seqs(rows'))
    ensures ordered == ordered' && forall k :: 0 <= k < |ordered| ==>
      PeerOf(ordered[k], rows[ordered[k]]) == PeerOf(ordered[k], rows'[ordered[k]])
  {
    var ids := Selected(rows, me, f, since);
    forall id ensures id in Selected(rows', me, f, since) <==> id in ids {
    }
    assert Selected(rows', me, f, since) == ids;
    forall k | 0 <= k < |ordered'| ensures ordered'[k] in ids && Seqs(rows')[ordered'[k]] == Seqs(rows)[ordered'[k]] {
      var id := ordered'[k];
      assert id in Selected(rows', me, f, since);
    }
    OneOrder(ordered, ordered', ids, Seqs(rows));
  }

  lemma SamePage(rows: map<int, Row>, rows': map<int, Row>, ordered: seq<int>, since: int, limit: nat)
    requires forall k :: 0 <= k < |ordered| ==>
      ordered[k] in rows && ordered[k] in rows' &&
        PeerOf(ordered[k], rows[ordered[k]]) == PeerOf(ordered[k], rows'[ordered[k]])
    requires limit >= 1
    ensures PageOf(rows, ordered, since, limit) == PageOf(rows', ordered, since, limit)
  {
    PageOfSplits(rows, ordered, since, limit);
    PageOfSplits(rows', ordered, since, limit);
  }

  /**
   The feed reveals to a consumer nothing of others' rows beyond their peer records: not who contributed them,
   not their secrets, times, hits or flags.
   */
  lemma FeedRevealsPeersOnly(rows: map<int, Row>, rows': map<int, Row>, me: int, f: Filter, since: int, limit: nat)
    requires DistinctSeqs(rows) && DistinctSeqs(rows') && limit >= 1 && LookAlike(rows, rows', me)
    ensures SyncPage(rows, me, f, since, limit) == SyncPage(rows', me, f, since, limit)
  {
    var ordered := Ordered(Selected(rows, me, f, since), Seqs(rows));
    var ordered' := Ordered(Selected(rows', me, f, since), Seqs(rows'));
    SameFeedFrom(rows, rows', me, f, since, ordered, ordered');
    SamePage(rows, rows', ordered, since, limit);
  }
}
