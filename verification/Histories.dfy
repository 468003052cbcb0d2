/**
 Facts about whole runs of the store: version numbers name contents, identities are never
 reused, and the hit counter is the ledger of hit rows kept and purged.
 */
module Histories {
  import opened Schema
  import opened Steps
  import opened Invariants

  lemma {:induction false} RunSplits(db: Db, ops: seq<Op>, i: nat, threshold: nat)
    requires i <= |ops|
    ensures Run(db, ops, threshold) == Run(Run(db, ops[..i], threshold), ops[i..], threshold)
    decreases |ops|
  {
    if i == 0 {
    } else {
      assert ops[..i][1..] == ops[1..][..i - 1];
      assert ops[i..] == ops[1..][i - 1..];
      RunSplits(Apply(db, ops[0], threshold), ops[1..], i - 1, threshold);
    }
  }

  /** An identity that has been given out and is gone stays gone. */
  lemma {:induction false} PurgedNeverReturns(db: Db, ops: seq<Op>, id: int, threshold: nat)
    requires Valid(db, threshold) && threshold >= 1
    requires id !in db.rows && id < db.nextId
    ensures id !in Run(db, ops, threshold).rows
    decreases |ops|
  {
    if ops == [] {
    } else {
      StepHasShape(db, ops[0], threshold);
      StepKeepsValid(db, ops[0], threshold);
      PurgedNeverReturns(Apply(db, ops[0], threshold), ops[1..], id, threshold);
    }
  }

  /**
   A step gives a row a new version number exactly when peers would see a different row, above any given out before.
   */
  lemma VersionChangesWithContent(db: Db, op: Op, id: int, threshold: nat)
    requires Valid(db, threshold)
    requires id in db.rows && id in Apply(db, op, threshold).rows
    ensures var row, row' := db.rows[id], Apply(db, op, threshold).rows[id];
            && (row.syncSeq != row'.syncSeq <==>
                  || row.phash != row'.phash || row.triple != row'.triple || row.category != row'.category
                  || row.action != row'.action || row.status != row'.status)
            && (row.syncSeq != row'.syncSeq ==> row'.syncSeq > db.counter)
  {
    StepHasShape(db, op, threshold);
  }

  lemma {:induction false} VersionsGrow(db: Db, ops: seq<Op>, id: int, threshold: nat)
    requires Valid(db, threshold) && threshold >= 1
    requires id in db.rows && id in Run(db, ops, threshold).rows
    ensures var row, row' := db.rows[id], Run(db, ops, threshold).rows[id];
            && row.syncSeq <= row'.syncSeq
            && row.consumer == row'.consumer && row.phash == row'.phash
            && (row.syncSeq == row'.syncSeq ==> PeerOf(id, row) == PeerOf(id, row'))
    decreases |ops|
  {
    if ops == [] {
    } else {
      var db' := Apply(db, ops[0], threshold);
      StepHasShape(db, ops[0], threshold);
      StepKeepsValid(db, ops[0], threshold);
      if id in db'.rows {
        VersionsGrow(db', ops[1..], id, threshold);
      } else {
        PurgedNeverReturns(db', ops[1..], id, threshold);
      }
    }
  }

  /** Over a whole run, an id and a version number together name one peer record. */
  lemma VersionNamesContent(ops: seq<Op>, i: nat, j: nat, id: int, threshold: nat)
    requires threshold >= 1 && i <= j <= |ops|
    requires id in Run(EMPTY_DB, ops[..i], threshold).rows && id in Run(EMPTY_DB, ops[..j], threshold).rows
    requires Run(EMPTY_DB, ops[..i], threshold).rows[id].syncSeq == Run(EMPTY_DB, ops[..j], threshold).rows[id].syncSeq
    ensures var row, row' := Run(EMPTY_DB, ops[..i], threshold).rows[id], Run(EMPTY_DB, ops[..j], threshold).rows[id];
            && row.phash == row'.phash && row.triple == row'.triple && row.category == row'.category
            && row.action == row'.action && row.status == row'.status
            && PeerOf(id, row) == PeerOf(id, row')
  {
    RunKeepsValid(EMPTY_DB, ops[..i], threshold);
    RunSplits(EMPTY_DB, ops[..j], i, threshold);
    assert ops[..j][..i] == ops[..i];
    VersionsGrow(Run(EMPTY_DB, ops[..i], threshold), ops[..j][i..], id, threshold);
  }

  // ---- the hit ledger ----

  /** Hit rows of `id` that this step deletes because they have outlived the policy. */
  function HitsExpiring(db: Db, op: Op, id: int): nat {
    if op.Retain? && ValidPolicy(op.policy)
    then |HitRows(db.hits, id) * ExpiredHits(db, op.policy, op.now)|
    else 0
  }

  ghost function HitsExpired(db: Db, ops: seq<Op>, id: int, threshold: nat): nat
    decreases |ops|
  {
    if ops == [] then 0
    else HitsExpiring(db, ops[0], id) + HitsExpired(Apply(db, ops[0], threshold), ops[1..], id, threshold)
  }

  function Unaccounted(db: Db, id: int): int {
    if id in db.rows then db.rows[id].hitCount - |HitRows(db.hits, id)| else 0
  }

  lemma NoRowNoHits(db: Db, id: int)
    requires ForeignKeys(db) && id !in db.rows
    ensures HitRows(db.hits, id) == {}
  {
    forall h ensures h !in HitRows(db.hits, id) {
    }
  }

  lemma HitBalances(db: Db, fp: int, hit: HitRow, id: int)
    requires Bounded(db) && id in db.rows && hit.fingerprint == fp
    ensures Unaccounted(HitRecorded(db, fp, hit), id) == Unaccounted(db, id)
  {
    var db' := HitRecorded(db, fp, hit);
    if Live(db, fp) && fp == id {
      assert db.nextHitId !in HitRows(db.hits, id);
      assert HitRows(db'.hits, id) == HitRows(db.hits, id) + {db.nextHitId};
    } else {
      assert HitRows(db'.hits, id) == HitRows(db.hits, id);
    }
  }

  lemma RetainBalances(db: Db, p: Policy, now: int, id: int)
    requires id in Retained(db, p, now).rows
    ensures Unaccounted(Retained(db, p, now), id) ==
      Unaccounted(db, id) + |HitRows(db.hits, id) * ExpiredHits(db, p, now)|
  {
    var kept, lost := HitRows(db.hits, id) - ExpiredHits(db, p, now), HitRows(db.hits, id) * ExpiredHits(db, p, now);
    assert HitRows(Retained(db, p, now).hits, id) == kept;
    assert HitRows(db.hits, id) == kept + lost;
  }

  lemma ContributeBalances(db: Db, s: Submission, now: int, id: int)
    requires Bounded(db) && ForeignKeys(db)
    ensures Unaccounted(Contributed(db, s, now), id) == Unaccounted(db, id)
  {
    var db' := Contributed(db, s, now);
    assert db'.hits == db.hits;
    if id !in db.rows { NoRowNoHits(db, id); }
  }

  lemma FlagBalances(db: Db, fp: int, consumer: int, flag: FlagRow, id: int, threshold: nat)
    ensures Unaccounted(Flagged(db, fp, consumer, flag, threshold), id) == Unaccounted(db, id)
  {
  }

  lemma DeleteBalances(db: Db, fp: int, now: int, id: int)
    ensures Unaccounted(SoftDeleted(db, fp, now), id) == Unaccounted(db, id)
  {
  }

  lemma StepBalancesHits(db: Db, op: Op, id: int, threshold: nat)
    requires Valid(db, threshold)
    requires id in Apply(db, op, threshold).rows
    ensures Unaccounted(Apply(db, op, threshold), id) == Unaccounted(db, id) + HitsExpiring(db, op, id)
  {
    match op
    case Contribute(s, now) => ContributeBalances(db, s, now, id);
    case LoseRace(_, _) =>
    case Hit(fp, consumer, guild, distance, now) => HitBalances(db, fp, HitRow(fp, consumer, guild, distance, now), id);
    case PlaceFlag(fp, consumer, reason, now) => FlagBalances(db, fp, consumer, FlagRow(reason, now), id, threshold);
    case Delete(fp, now) => DeleteBalances(db, fp, now, id);
    case Retain(p, now) => if ValidPolicy(p) { RetainBalances(db, p, now, id); }
  }

  lemma {:induction false} RunBalancesHits(db: Db, ops: seq<Op>, id: int, threshold: nat)
    requires Valid(db, threshold) && threshold >= 1
    requires id in Run(db, ops, threshold).rows
    ensures Unaccounted(Run(db, ops, threshold), id) == Unaccounted(db, id) + HitsExpired(db, ops, id, threshold)
    decreases |ops|
  {
    if ops == [] {
    } else {
      var db' := Apply(db, ops[0], threshold);
      StepHasShape(db, ops[0], threshold);
      StepKeepsValid(db, ops[0], threshold);
      if id in db'.rows {
        StepBalancesHits(db, ops[0], id, threshold);
      } else if id in db.rows {
        PurgedNeverReturns(db', ops[1..], id, threshold);
      } else {
        NoRowNoHits(db, id);
      }
      RunBalancesHits(db', ops[1..], id, threshold);
    }
  }

  /** `hit_count` is the hit rows still stored plus those retention has expired. */
  lemma HitCountIsALedger(ops: seq<Op>, id: int, threshold: nat)
    requires threshold >= 1
    requires id in Run(EMPTY_DB, ops, threshold).rows
    ensures var db := Run(EMPTY_DB, ops, threshold);
            db.rows[id].hitCount == |HitRows(db.hits, id)| + HitsExpired(EMPTY_DB, ops, id, threshold)
  {
    RunBalancesHits(EMPTY_DB, ops, id, threshold);
  }
}
