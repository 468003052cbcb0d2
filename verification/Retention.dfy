/** The algebra of the retention policy. */
module Retention {
  import opened Wrappers
  import opened Schema
  import opened Steps
  import opened Invariants

  /** What an early application left and a late one purges is what the late one purges anyway. */
  lemma PurgesCompose(db: Db, p: Policy, t1: int, t2: int)
    requires t1 <= t2
    ensures Purged(db.rows, p, t1) <= Purged(db.rows, p, t2)
    ensures Purged(Retained(db, p, t1).rows, p, t2) == Purged(db.rows, p, t2) - Purged(db.rows, p, t1)
  {
    var mid := Retained(db, p, t1);
    forall id | id in Purged(db.rows, p, t1) ensures id in Purged(db.rows, p, t2) {
    }
    forall id ensures id in Purged(mid.rows, p, t2) <==> id in Purged(db.rows, p, t2) && id !in Purged(db.rows, p, t1) {
      assert id in mid.rows <==> id in db.rows && id !in Purged(db.rows, p, t1);
    }
  }

  lemma RowsCompose(db: Db, p: Policy, t1: int, t2: int)
    requires t1 <= t2
    ensures Retained(Retained(db, p, t1), p, t2).rows == Retained(db, p, t2).rows
  {
    var once, twice, mid := Retained(db, p, t2), Retained(Retained(db, p, t1), p, t2), Retained(db, p, t1);
    PurgesCompose(db, p, t1, t2);
    forall id | id in once.rows ensures id in twice.rows && twice.rows[id] == once.rows[id] {
      assert id in mid.rows && mid.rows[id] == Scrubbed(db.rows[id], p, t1);
    }
    assert twice.rows.Keys == once.rows.Keys;
  }

  lemma FlagsCompose(db: Db, p: Policy, t1: int, t2: int)
    requires t1 <= t2
    ensures Retained(Retained(db, p, t1), p, t2).flags == Retained(db, p, t2).flags
  {
    var once, twice, mid := Retained(db, p, t2), Retained(Retained(db, p, t1), p, t2), Retained(db, p, t1);
    PurgesCompose(db, p, t1, t2);
    forall k ensures k in twice.flags <==> k in once.flags {
      assert k in mid.flags <==> k in db.flags && k.0 !in Purged(db.rows, p, t1);
    }
  }

  lemma HitsCompose(db: Db, p: Policy, t1: int, t2: int)
    requires t1 <= t2
    ensures Retained(Retained(db, p, t1), p, t2).hits == Retained(db, p, t2).hits
  {
    var once, twice, mid := Retained(db, p, t2), Retained(Retained(db, p, t1), p, t2), Retained(db, p, t1);
    PurgesCompose(db, p, t1, t2);
    forall h ensures h in twice.hits <==> h in once.hits {
      assert h in mid.hits ==> mid.hits[h] == db.hits[h];
    }
  }

  /** Applying the policy late is the same as applying it early and then late. */
  lemma RetainComposes(db: Db, p: Policy, t1: int, t2: int)
    requires t1 <= t2
    ensures Retained(Retained(db, p, t1), p, t2) == Retained(db, p, t2)
  {
    RowsCompose(db, p, t1, t2);
    FlagsCompose(db, p, t1, t2);
    HitsCompose(db, p, t1, t2);
  }

  /** Nothing that has outlived its period is left. */
  lemma NothingExpiredRemains(db: Db, p: Policy, now: int)
    ensures var db' := Retained(db, p, now);
            && (forall h :: h in db'.hits ==> db'.hits[h].hitAt >= now - p.hit)
            && (forall k :: k in db'.flags && db'.flags[k].reason.Some? ==>
                  db'.flags[k].createdAt >= now - p.flagReason)
            && (forall id :: id in db'.rows && db'.rows[id].status == Deleted ==>
                  && db'.rows[id].updatedAt >= now - p.tombstone
                  && (db'.rows[id].secrets == NO_SECRETS || db'.rows[id].updatedAt >= now - p.tombstoneMetadata))
  {
  }

  /**
   And nothing else is touched.  What survives is exactly what has not outlived its period, and survives column by
   column, but for the secrets of old tombstones and the reasons of old flags; nothing new appears.
   */
  lemma OnlyExpiredIsRemoved(db: Db, p: Policy, now: int)
    requires ForeignKeys(db)
    ensures var db' := Retained(db, p, now);
            && (forall id :: id in db'.rows <==>
                  id in db.rows && (db.rows[id].status != Deleted || db.rows[id].updatedAt >= now - p.tombstone))
            && (forall id :: id in db'.rows ==>
                  db'.rows[id] ==
                  if db.rows[id].status == Deleted && db.rows[id].updatedAt < now - p.tombstoneMetadata
                  then db.rows[id].(secrets := Secrets(None, None, None)) else db.rows[id])
            && (forall k :: k in db'.flags <==> k in db.flags && k.0 in db'.rows)
            && (forall k :: k in db'.flags ==>
                  db'.flags[k] ==
                  if db.flags[k].createdAt < now - p.flagReason then db.flags[k].(reason := None) else db.flags[k])
            && (forall h :: h in db'.hits <==>
                  h in db.hits && db.hits[h].hitAt >= now - p.hit && db.hits[h].fingerprint in db'.rows)
            && (forall h :: h in db'.hits ==> db'.hits[h] == db.hits[h])
            && db'.counter == db.counter && db'.nextId == db.nextId && db'.nextHitId == db.nextHitId
  {
  }

  /** A second application at the same time finds nothing to do and says so. */
  lemma SecondTimeIsIdle(db: Db, p: Policy, now: int)
    ensures Retained(Retained(db, p, now), p, now) == Retained(db, p, now)
    ensures ReportOf(Retained(db, p, now), p, now) == Report(0, 0, 0, 0)
  {
    RetainComposes(db, p, now, now);
    NothingExpiredRemains(db, p, now);
    var db' := Retained(db, p, now);
    assert ExpiredHits(db', p, now) == {};
    assert ExpiredReasons(db', p, now) == {};
    assert Purged(db'.rows, p, now) == {};
    forall id ensures id !in ExpiredMetadata(db', p, now) {
    }
    assert ExpiredMetadata(db', p, now) == {};
  }

  /** Unexpired hits that go because their tombstone does. */
  function Orphans(db: Db, p: Policy, now: int): set<int> {
    set h | h in db.hits && db.hits[h].hitAt >= now - p.hit && db.hits[h].fingerprint !in Retained(db, p, now).rows
  }

  lemma TwoParts(all: set<int>, a: set<int>, b: set<int>)
    requires a == all - b && b <= all
    ensures |all| == |a| + |b|
  {
    assert all == a + b;
  }

  lemma ThreeParts(all: set<int>, a: set<int>, b: set<int>, c: set<int>)
    requires all == a + b + c && a !! b && a !! c && b !! c
    ensures |all| == |a| + |b| + |c|
  {
    assert |a + b| == |a| + |b|;
    assert |all| == |a + b| + |c|;
  }

  lemma TombstonesCounted(db: Db, p: Policy, now: int)
    ensures |db.rows| == |Retained(db, p, now).rows| + |Purged(db.rows, p, now)|
  {
    var kept, gone := Retained(db, p, now).rows.Keys, Purged(db.rows, p, now);
    assert kept == db.rows.Keys - gone;
    TwoParts(db.rows.Keys, kept, gone);
    assert |db.rows| == |db.rows.Keys| && |Retained(db, p, now).rows| == |kept|;
  }

  lemma HitsSplit(db: Db, p: Policy, now: int)
    requires ForeignKeys(db)
    ensures var kept, expired, orphans := Retained(db, p, now).hits.Keys, ExpiredHits(db, p, now), Orphans(db, p, now);
            && db.hits.Keys == kept + expired + orphans
            && kept !! expired && kept !! orphans && expired !! orphans
  {
    var kept, expired, orphans := Retained(db, p, now).hits.Keys, ExpiredHits(db, p, now), Orphans(db, p, now);
    forall h | h in kept ensures db.hits[h].fingerprint in Retained(db, p, now).rows {
      assert db.hits[h].fingerprint in db.rows;
    }
    forall h ensures h in db.hits <==> h in kept + expired + orphans {
    }
  }

  lemma HitsCounted(db: Db, p: Policy, now: int)
    requires ForeignKeys(db)
    ensures |db.hits| == |Retained(db, p, now).hits| + |ExpiredHits(db, p, now)| + |Orphans(db, p, now)|
  {
    HitsSplit(db, p, now);
    ThreeParts(db.hits.Keys, Retained(db, p, now).hits.Keys, ExpiredHits(db, p, now), Orphans(db, p, now));
    assert |db.hits| == |db.hits.Keys| && |Retained(db, p, now).hits| == |Retained(db, p, now).hits.Keys|;
  }

  /** Rows that survive and are not what they were. */
  function ChangedRows(db: Db, db': Db): set<int> {
    set id | id in db.rows && id in db'.rows && db'.rows[id] != db.rows[id]
  }

  function ChangedFlags(db: Db, db': Db): set<(int, int)> {
    set k | k in db.flags && k in db'.flags && db'.flags[k] != db.flags[k]
  }

  /** Expired reasons that go, already cleared, because their tombstone does. */
  function OrphanedReasons(db: Db, p: Policy, now: int): set<(int, int)> {
    set k | k in db.flags && db.flags[k].reason.Some? && db.flags[k].createdAt < now - p.flagReason
            && k.0 !in Retained(db, p, now).rows
  }

  lemma ReasonsCounted(db: Db, p: Policy, now: int)
    requires ForeignKeys(db)
    ensures |ExpiredReasons(db, p, now)| == |ChangedFlags(db, Retained(db, p, now))| + |OrphanedReasons(db, p, now)|
  {
    var changed, orphaned := ChangedFlags(db, Retained(db, p, now)), OrphanedReasons(db, p, now);
    forall k ensures k in ExpiredReasons(db, p, now) <==> k in changed + orphaned {
    }
    assert ExpiredReasons(db, p, now) == changed + orphaned && changed !! orphaned;
  }

  lemma AnonymizedCounted(db: Db, p: Policy, now: int)
    ensures ExpiredMetadata(db, p, now) == ChangedRows(db, Retained(db, p, now))
  {
    forall id ensures id in ExpiredMetadata(db, p, now) <==> id in ChangedRows(db, Retained(db, p, now)) {
    }
  }

  /**
   The numbers reported are what changed between the two states: rows gone, rows anonymized, and, apart from
   those that went with a purged tombstone, hits gone and flags that lost their reason.
   */
  lemma ReportCounts(db: Db, p: Policy, now: int)
    requires ForeignKeys(db)
    ensures var report, db' := ReportOf(db, p, now), Retained(db, p, now);
            && |db.rows| == |db'.rows| + report.purged
            && report.anonymized == |ChangedRows(db, db')|
            && report.reasonsCleared == |ChangedFlags(db, db')| + |OrphanedReasons(db, p, now)|
            && |db.hits| == |db'.hits| + report.hitsDeleted + |Orphans(db, p, now)|
  {
    TombstonesCounted(db, p, now);
    HitsCounted(db, p, now);
    ReasonsCounted(db, p, now);
    AnonymizedCounted(db, p, now);
  }
}
