/**
 The store as it works: tables changed in place by a transaction's statements, in their order.

 Each method is proved to be one step of module Steps and to keep the invariant of module Invariants, so
 everything proved there about runs holds of sequences of calls.
 */
module Store {
  import opened Wrappers
  import opened Schema
  import opened Steps
  import opened Invariants
  import opened Feed
  import opened Listing
  import opened Effects

  datatype FlagReply = FlagReply(flagCount: nat, status: Status, hidden: bool)

  datatype PolicyError = NegativePeriod | MetadataOutlivesTombstone

  class FingerprintStore {
    const autoHideThreshold: nat
    var rows: map<int, Row>
    var flags: map<(int, int), FlagRow>
    var hits: map<int, HitRow>
    var counter: nat
    var nextId: nat
    var nextHitId: nat

    ghost function State(): Db
      reads this
    {
      Db(rows, flags, hits, counter, nextId, nextHitId)
    }

    ghost predicate Valid()
      reads this
    {
      autoHideThreshold >= 1 && Invariants.Valid(State(), autoHideThreshold)
    }

    constructor (threshold: nat)
      requires threshold >= 1
      ensures Valid() && State() == EMPTY_DB && autoHideThreshold == threshold
    {
      autoHideThreshold := threshold;
      rows, flags, hits := map[], map[], map[];
      counter, nextId, nextHitId := 0, 0, 0;
    }

    method NextVal() returns (n: nat)
      modifies this`counter
      ensures counter == old(counter) + 1 && n == counter
    {
      counter := counter + 1;
      n := counter;
    }

    /** The row of this hash and owner, if there is one. */
    method Lookup(phash: string, consumer: int) returns (found: Option<int>)
      ensures found.Some? ==> Holds(rows, found.value, phash, consumer)
      ensures found.None? ==> forall id :: !Holds(rows, id, phash, consumer)
    {
      if exists id :: id in rows && rows[id].phash == phash && rows[id].consumer == consumer {
        var id :| id in rows && rows[id].phash == phash && rows[id].consumer == consumer;
        found := Some(id);
      } else {
        found := None;
        assert forall id :: id in rows ==> !(rows[id].phash == phash && rows[id].consumer == consumer);
      }
    }

    /** Give a tombstone fresh content and a fresh number, and drop its stale flags. */
    method Resurrect(id: int, s: Submission, now: int)
      requires Valid() && Find(rows, s.phash, s.consumer) == Some(id) && rows[id].status == Deleted
      modifies this
      ensures State() == Contributed(old(State()), s, now)
    {
      flags := map k | k in flags && k.0 != id :: flags[k];
      var stamp := NextVal();
      rows := rows[id := RevivedRow(rows[id], s, stamp, now)];
    }

    method Insert(s: Submission, now: int) returns (id: int)
      requires Valid() && Find(rows, s.phash, s.consumer) == None
      modifies this
      ensures State() == Contributed(old(State()), s, now) && id == old(nextId)
    {
      id := nextId;
      nextId := nextId + 1;
      var stamp := NextVal();
      rows := rows[id := NewRow(s, stamp, now)];
    }

    /** Insert, or resurrect the owner's tombstone, or report the live duplicate. */
    method Contribute(s: Submission, now: int) returns (id: int, created: bool)
      requires Valid()
      modifies this
      ensures Valid()
      ensures State() == Apply(old(State()), Op.Contribute(s, now), autoHideThreshold)
      ensures Holds(rows, id, s.phash, s.consumer) && rows[id].status != Deleted
      ensures created <==> forall j :: Holds(old(rows), j, s.phash, s.consumer) ==> old(rows)[j].status == Deleted
      ensures created ==> rows[id].syncSeq == old(counter) + 1 && rows[id].flagCount == 0
                          && Content(rows[id]) == (s.phash, s.triple, s.category, s.action, Active)
      ensures created ==>
        rows[id].secrets == s.secrets && rows[id].provenance == s.provenance && rows[id].autoAdded == s.autoAdded
                          && rows[id].addedAt == now && rows[id].updatedAt == now
                          && Flaggers(flags, id) == {} && hits == old(hits)
      ensures forall j :: j in old(rows) && j != id ==> j in rows && rows[j] == old(rows)[j]
      ensures !created ==> State() == old(State())
    {
      ContributeKeepsValid(State(), s, now, autoHideThreshold);
      var existing := Lookup(s.phash, s.consumer);
      if existing.None? {
        id := Insert(s, now);
        created := true;
      } else {
        id := existing.value;
        OneFound(rows, id, s.phash, s.consumer);
        created := rows[id].status == Deleted;
        if created {
          Resurrect(id, s, now);
        }
      }
      if created { ContributionTakesEffect(old(State()), s, now, id, autoHideThreshold); }
    }

    method ReportHit(id: int, consumer: int, guild: Option<string>, distance: Option<int>, now: int)
        returns (hitCount: Option<nat>)
      requires Valid()
      modifies this
      ensures Valid()
      ensures State() == Apply(old(State()), Hit(id, consumer, guild, distance, now), autoHideThreshold)
      ensures hitCount.Some? <==> id in old(rows) && old(rows)[id].status != Deleted
      ensures hitCount.None? ==> State() == old(State())
      ensures hitCount.Some? ==>
        && hitCount.value == old(rows)[id].hitCount + 1
        && rows == old(rows)[id := old(rows)[id].(hitCount := hitCount.value, lastHitAt := Some(now))]
        && (exists h :: h !in old(hits)
              && hits == old(hits)[h := HitRow(fingerprint := id, consumer := consumer, guild := guild,
                                               distance := distance, hitAt := now)])
      ensures flags == old(flags) && counter == old(counter) && nextId == old(nextId)
    {
      ghost var h := nextHitId;
      assert h !in hits;
      StepKeepsValid(State(), Hit(id, consumer, guild, distance, now), autoHideThreshold);
      if id !in rows || rows[id].status == Deleted {
        return None;
      }
      hits := hits[nextHitId := HitRow(id, consumer, guild, distance, now)];
      nextHitId := nextHitId + 1;
      rows := rows[id := rows[id].(hitCount := rows[id].hitCount + 1, lastHitAt := Some(now))];
      return Some(rows[id].hitCount);
    }

    /** The statements of a flag transaction on a live row. */
    method PlaceFlagRow(id: int, consumer: int, reason: Option<string>, now: int) returns (reply: FlagReply)
      requires Live(State(), id)
      modifies this
      ensures State() == Flagged(old(State()), id, consumer, FlagRow(reason, now), autoHideThreshold)
      ensures id in rows && reply.flagCount == |Flaggers(flags, id)| && reply.status == rows[id].status
      ensures reply.hidden <==> old(State()).rows[id].status == Active && rows[id].status == Hidden
    {
      if (id, consumer) !in flags {
        flags := flags[(id, consumer) := FlagRow(reason, now)];
      }
      var flagCount := |set k | k in flags && k.0 == id :: k.1|;
      var hiddenNow := false;
      var status := rows[id].status;
      if flagCount >= autoHideThreshold && status == Active {
        var stamp := NextVal();
        rows := rows[id := rows[id].(status := Hidden, flagCount := flagCount, syncSeq := stamp, updatedAt := now)];
        status := Hidden;
        hiddenNow := true;
      } else {
        rows := rows[id := rows[id].(flagCount := flagCount, updatedAt := now)];
      }
      reply := FlagReply(flagCount, status, hiddenNow);
    }

    /** Record the flag once per consumer; hide the row when the distinct flaggers reach the threshold. */
    method Flag(id: int, consumer: int, reason: Option<string>, now: int) returns (reply: Option<FlagReply>)
      requires Valid()
      modifies this
      ensures Valid()
      ensures State() == Apply(old(State()), PlaceFlag(id, consumer, reason, now), autoHideThreshold)
      ensures reply.Some? <==> id in old(rows) && old(rows)[id].status != Deleted
      ensures reply.None? ==> State() == old(State())
      ensures reply.Some? ==>
        && flags == (if (id, consumer) in old(flags) then old(flags)
                     else old(flags)[(id, consumer) := FlagRow(reason := reason, createdAt := now)])
        && reply.value.flagCount == |set k | k in flags && k.0 == id|
        && (reply.value.hidden <==> reply.value.flagCount >= autoHideThreshold && old(rows)[id].status == Active)
        && rows == old(rows)[id :=
             if reply.value.hidden
             then old(rows)[id].(flagCount := reply.value.flagCount, updatedAt := now, status := Hidden,
               syncSeq := counter)
             else old(rows)[id].(flagCount := reply.value.flagCount, updatedAt := now)]
        && counter == old(counter) + (if reply.value.hidden then 1 else 0)
      ensures hits == old(hits) && nextId == old(nextId)
      ensures reply.Some? ==>
        && id in rows && consumer in Flaggers(flags, id)
        && reply.value.flagCount == |Flaggers(flags, id)| == rows[id].flagCount
        && reply.value.status == rows[id].status
        && (reply.value.hidden <==> old(State()).rows[id].status == Active && rows[id].status == Hidden)
        && (rows[id].status == Hidden <==> reply.value.flagCount >= autoHideThreshold)
    {
      StepKeepsValid(State(), PlaceFlag(id, consumer, reason, now), autoHideThreshold);
      if id !in rows || rows[id].status == Deleted {
        return None;
      }
      FlagAddsFlagger(flags, id, consumer, FlagRow(reason, now));
      FlagTakesEffect(State(), id, consumer, reason, now, autoHideThreshold);
      var answer := PlaceFlagRow(id, consumer, reason, now);
      FlaggersCountFlagRows(flags, id);
      return Some(answer);
    }

    method SoftDelete(id: int, now: int) returns (changed: bool)
      requires Valid()
      modifies this
      ensures Valid()
      ensures State() == Apply(old(State()), Delete(id, now), autoHideThreshold)
      ensures changed <==> id in old(rows) && old(rows)[id].status != Deleted
      ensures !changed ==> State() == old(State())
      ensures changed ==>
        && counter == old(counter) + 1
        && rows == old(rows)[id := old(rows)[id].(status := Deleted, syncSeq := counter, updatedAt := now)]
      ensures flags == old(flags) && hits == old(hits) && nextId == old(nextId)
    {
      StepKeepsValid(State(), Delete(id, now), autoHideThreshold);
      if id !in rows || rows[id].status == Deleted {
        return false;
      }
      var stamp := NextVal();
      rows := rows[id := rows[id].(status := Deleted, syncSeq := stamp, updatedAt := now)];
      return true;
    }

    /** `DELETE FROM fingerprint_hits WHERE hit_at_ms < cutoff` */
    method DeleteHits(cutoff: int) returns (count: nat)
      modifies this`hits
      ensures hits == Young(old(hits), cutoff)
      ensures count == |set h | h in old(hits) && old(hits)[h].hitAt < cutoff|
    {
      count := |set h | h in hits && hits[h].hitAt < cutoff|;
      hits := map h | h in hits && hits[h].hitAt >= cutoff :: hits[h];
    }

    method ClearReasons(cutoff: int) returns (count: nat)
      modifies this`flags
      ensures flags.Keys == old(flags).Keys
      ensures forall k :: k in flags ==>
        flags[k] == if old(flags)[k].createdAt < cutoff then old(flags)[k].(reason := None) else old(flags)[k]
      ensures count == |set k | k in old(flags) && old(flags)[k].reason.Some? && old(flags)[k].createdAt < cutoff|
    {
      count := |set k | k in flags && flags[k].reason.Some? && flags[k].createdAt < cutoff|;
      flags := map k | k in flags ::
        if flags[k].reason.Some? && flags[k].createdAt < cutoff then flags[k].(reason := None) else flags[k];
    }

    /** Deleting a fingerprint cascades to its flags and hits. */
    method DeleteTombstones(cutoff: int) returns (count: nat)
      modifies this`rows, this`flags, this`hits
      ensures rows == Untombed(old(rows), cutoff)
      ensures flags == WithoutFlags(old(flags), old(rows), cutoff)
      ensures hits == WithoutHits(old(hits), old(rows), cutoff)
      ensures count == |set id | id in old(rows) && Stale(old(rows)[id], cutoff)|
    {
      var gone := set id | id in rows && Stale(rows[id], cutoff);
      count := |gone|;
      assert forall id :: id in gone <==> IsTomb(rows, id, cutoff);
      flags := map k | k in flags && k.0 !in gone :: flags[k];
      hits := map h | h in hits && hits[h].fingerprint !in gone :: hits[h];
      rows := map id | id in rows && id !in gone :: rows[id];
    }

    method ScrubTombstones(cutoff: int) returns (count: nat)
      modifies this`rows
      ensures rows.Keys == old(rows).Keys
      ensures forall id :: id in rows ==>
        rows[id] == if Stale(old(rows)[id], cutoff) then old(rows)[id].(secrets := NO_SECRETS) else old(rows)[id]
      ensures count == |set id | id in old(rows) && Stale(old(rows)[id], cutoff) && old(rows)[id].secrets != NO_SECRETS|
    {
      var doomed := set id | id in rows && Stale(rows[id], cutoff) && rows[id].secrets != NO_SECRETS;
      count := |doomed|;
      rows := map id | id in rows :: if id in doomed then rows[id].(secrets := NO_SECRETS) else rows[id];
    }

    /** The four statements of the retention transaction, in order. */
    method RetentionStatements(p: Policy, now: int) returns (report: Report)
      modifies this`rows, this`flags, this`hits
      ensures State() == Retained(old(State()), p, now)
      ensures report == ReportOf(old(State()), p, now)
    {
      ghost var db := State();
      var hitsDeleted := DeleteHits(now - p.hit);
      var reasonsCleared := ClearReasons(now - p.flagReason);
      ghost var cleared := flags;
      var purged := DeleteTombstones(now - p.tombstone);
      var anonymized := ScrubTombstones(now - p.tombstoneMetadata);
      AllStatements(db, p, now, cleared, rows);
      report := Report(hitsDeleted, reasonsCleared, anonymized, purged);
    }

    /** Apply the policy, or preview it: the statements run either way and a dry run rolls them back. */
    method ApplyRetention(p: Policy, now: int, dryRun: bool) returns (result: Result<Report, PolicyError>)
      requires Valid()
      modifies this
      ensures Valid()
      ensures result.Ok? <==>
        p.hit >= 0 && p.flagReason >= 0 && p.tombstone >= 0 && 0 <= p.tombstoneMetadata <= p.tombstone
      ensures result.Err? ==> State() == old(State())
      ensures result.Err? ==>
        (result.error == NegativePeriod <==>
          p.hit < 0 || p.flagReason < 0 || p.tombstoneMetadata < 0 || p.tombstone < 0)
      ensures result.Ok? ==> result.value == ReportOf(old(State()), p, now)
      ensures State() == if dryRun then old(State()) else Apply(old(State()), Retain(p, now), autoHideThreshold)
    {
      if p.hit < 0 || p.flagReason < 0 || p.tombstoneMetadata < 0 || p.tombstone < 0 {
        return Err(NegativePeriod);
      }
      if p.tombstoneMetadata > p.tombstone {
        return Err(MetadataOutlivesTombstone);
      }
      RetainKeepsValid(State(), p, now, autoHideThreshold);
      var savedRows, savedFlags, savedHits := rows, flags, hits;
      var report := RetentionStatements(p, now);
      if dryRun {
        rows, flags, hits := savedRows, savedFlags, savedHits;
      }
      return Ok(report);
    }

    method Get(id: int) returns (row: Option<Row>)
      ensures row == if id in rows then Some(rows[id]) else None
    {
      if id in rows { return Some(rows[id]); }
      return None;
    }

    /** The others' rows after `since`, ascending, at most `limit`; one more is fetched to see if there are more. */
    method Sync(requester: int, since: int, limit: nat, filter: Filter) returns (page: Page)
      requires Valid()
      ensures page == SyncPage(rows, requester, filter, since, limit)
      ensures limit >= 1 ==>
        && IsPage(rows, requester, filter, since, page)
        && |page.rows| <= limit && (page.hasMore ==> |page.rows| == limit)
      ensures limit >= 1 ==> forall p :: p in page.rows ==> p.id in rows && Mirrors(p, p.id, rows[p.id])
    {
      page := PageFrom(Ordered(Selected(rows, requester, filter, since), Seqs(rows)), since, limit);
      if limit >= 1 {
        SyncPageIsPage(rows, requester, filter, since, limit);
        PageMirrors(rows, requester, filter, since, page);
      }
    }

    method PageFrom(ordered: seq<int>, since: int, limit: nat) returns (page: Page)
      requires forall k :: 0 <= k < |ordered| ==> ordered[k] in rows
      ensures page == PageOf(rows, ordered, since, limit)
    {
      var fetched := Take(ordered, limit + 1);
      var hasMore := |fetched| > limit;
      var kept := Take(fetched, limit);
      var nextSince := since;
      if kept != [] {
        nextSince := rows[kept[|kept| - 1]].syncSeq;
      }
      page := Page(Peers(rows, kept), nextSince, hasMore);
    }

    method ListFingerprints(q: Query, limit: nat, offset: nat) returns (ids: seq<int>)
      ensures ids == Browse(rows, q, limit, offset)
      ensures forall k :: 0 <= k < |ids| ==> ids[k] in rows && Listable(rows[ids[k]], q)
      ensures forall a, b :: 0 <= a < b < |ids| ==> ids[a] > ids[b]
      ensures |ids| <= limit
    {
      var ordered := Ordered(Wanted(rows, q), NewestFirst(rows));
      SliceIsNewestFirst(rows, q, ordered, limit, offset);
      ids := Slice(ordered, limit, offset);
    }
  }

  lemma OneFound(rows: map<int, Row>, id: int, phash: string, consumer: int)
    requires OnePerContributor(rows) && Holds(rows, id, phash, consumer)
    ensures Find(rows, phash, consumer) == Some(id)
    ensures forall j :: Holds(rows, j, phash, consumer) ==> j == id
  {
  }

  // What the statements do to each table, composed, is what the retention step does to it.

  function Young(hits: map<int, HitRow>, cutoff: int): map<int, HitRow> {
    map h | h in hits && hits[h].hitAt >= cutoff :: hits[h]
  }

  function Untombed(rows: map<int, Row>, cutoff: int): map<int, Row> {
    map id | id in rows && !Stale(rows[id], cutoff) :: rows[id]
  }

  predicate IsTomb(rows: map<int, Row>, id: int, cutoff: int) {
    id in rows && Stale(rows[id], cutoff)
  }

  function WithoutFlags(flags: map<(int, int), FlagRow>, rows: map<int, Row>, cutoff: int): map<(int, int), FlagRow> {
    map k | k in flags && !IsTomb(rows, k.0, cutoff) :: flags[k]
  }

  function WithoutHits(hits: map<int, HitRow>, rows: map<int, Row>, cutoff: int): map<int, HitRow> {
    map h | h in hits && !IsTomb(rows, hits[h].fingerprint, cutoff) :: hits[h]
  }

  lemma AllStatements(db: Db, p: Policy, now: int, cleared: map<(int, int), FlagRow>, rows: map<int, Row>)
    requires cleared.Keys == db.flags.Keys
    requires forall k :: k in cleared ==>
      cleared[k] == if db.flags[k].createdAt < now - p.flagReason then db.flags[k].(reason := None) else db.flags[k]
    requires rows.Keys == Untombed(db.rows, now - p.tombstone).Keys
    requires forall id :: id in rows ==>
      rows[id] == if Stale(db.rows[id], now - p.tombstoneMetadata) then db.rows[id].(secrets := NO_SECRETS)
        else db.rows[id]
    ensures Retained(db, p, now) ==
            db.(rows := rows,
                flags := WithoutFlags(cleared, db.rows, now - p.tombstone),
                hits := WithoutHits(Young(db.hits, now - p.hit), db.rows, now - p.tombstone))
    ensures var kept := Untombed(db.rows, now - p.tombstone);
            ReportOf(db, p, now) ==
            Report(|set h | h in db.hits && db.hits[h].hitAt < now - p.hit|,
                   |set k | k in db.flags && db.flags[k].reason.Some? && db.flags[k].createdAt < now - p.flagReason|,
                   |set id | id in kept && Stale(kept[id], now - p.tombstoneMetadata) &&
                     kept[id].secrets != NO_SECRETS|,
                   |set id | id in db.rows && Stale(db.rows[id], now - p.tombstone)|)
  {
    RowStatements(db, p, now, rows);
    FlagStatements(db, p, now, cleared);
    HitStatements(db, p, now);
  }

  lemma RowStatements(db: Db, p: Policy, now: int, rows: map<int, Row>)
    requires rows.Keys == Untombed(db.rows, now - p.tombstone).Keys
    requires forall id :: id in rows ==>
      rows[id] == if Stale(db.rows[id], now - p.tombstoneMetadata) then db.rows[id].(secrets := NO_SECRETS)
        else db.rows[id]
    ensures rows == Retained(db, p, now).rows
    ensures var kept := Untombed(db.rows, now - p.tombstone);
            (set id | id in kept && Stale(kept[id], now - p.tombstoneMetadata) && kept[id].secrets != NO_SECRETS)
            == ExpiredMetadata(db, p, now)
    ensures (set id | id in db.rows && Stale(db.rows[id], now - p.tombstone)) == Purged(db.rows, p, now)
  {
    var rows', kept := Retained(db, p, now).rows, Untombed(db.rows, now - p.tombstone);
    forall id ensures id in rows <==> id in rows' {
      assert id in rows <==> id in kept;
    }
    forall id | id in rows ensures rows[id] == rows'[id] {
      assert id in kept && rows'[id] == Scrubbed(db.rows[id], p, now);
    }
  }

  lemma FlagStatements(db: Db, p: Policy, now: int, cleared: map<(int, int), FlagRow>)
    requires cleared.Keys == db.flags.Keys
    requires forall k :: k in cleared ==>
      cleared[k] == if db.flags[k].createdAt < now - p.flagReason then db.flags[k].(reason := None) else db.flags[k]
    ensures WithoutFlags(cleared, db.rows, now - p.tombstone) == Retained(db, p, now).flags
  {
    var flags, flags' := WithoutFlags(cleared, db.rows, now - p.tombstone), Retained(db, p, now).flags;
    forall k ensures k in flags <==> k in flags' {
      assert k in cleared <==> k in db.flags;
    }
  }

  lemma HitStatements(db: Db, p: Policy, now: int)
    ensures WithoutHits(Young(db.hits, now - p.hit), db.rows, now - p.tombstone) == Retained(db, p, now).hits
  {
    var young := Young(db.hits, now - p.hit);
    var hits, hits' := WithoutHits(young, db.rows, now - p.tombstone), Retained(db, p, now).hits;
    forall h ensures h in hits <==> h in hits' {
      assert h in young ==> young[h] == db.hits[h];
    }
  }
}
