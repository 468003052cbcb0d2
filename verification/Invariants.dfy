/**
 What every reachable state of the store satisfies, and what a single step may change.
 */
module Invariants {
  import opened Schema
  import opened Steps

  ghost predicate DistinctSeqs(rows: map<int, Row>) {
    forall i, j :: i in rows && j in rows && rows[i].syncSeq == rows[j].syncSeq ==> i == j
  }

  ghost predicate OnePerContributor(rows: map<int, Row>) {
    forall i, j :: i in rows && j in rows && rows[i].phash == rows[j].phash && rows[i].consumer == rows[j].consumer ==>
      i == j
  }

  ghost predicate Bounded(db: Db) {
    && (forall id :: id in db.rows ==> id < db.nextId && 1 <= db.rows[id].syncSeq <= db.counter)
    && (forall h :: h in db.hits ==> h < db.nextHitId)
  }

  ghost predicate ForeignKeys(db: Db) {
    && (forall k :: k in db.flags ==> k.0 in db.rows)
    && (forall h :: h in db.hits ==> db.hits[h].fingerprint in db.rows)
  }

  ghost predicate FlagsCounted(db: Db, threshold: nat) {
    forall id :: id in db.rows ==> Counted(db.rows[id], Flaggers(db.flags, id), threshold)
  }

  ghost predicate Counted(row: Row, flaggers: set<int>, threshold: nat) {
    && row.flagCount == |flaggers|
    && (row.status != Deleted ==> (row.status == Hidden <==> row.flagCount >= threshold))
  }

  ghost predicate Valid(db: Db, threshold: nat) {
    && DistinctSeqs(db.rows)
    && OnePerContributor(db.rows)
    && Bounded(db)
    && ForeignKeys(db)
    && FlagsCounted(db, threshold)
  }

  // ---- what one step may change ----

  /** The row's peer-visible content and its version number are as they were. */
  ghost predicate Same(row: Row, row': Row) {
    Content(row) == Content(row') && row.syncSeq == row'.syncSeq && row.consumer == row'.consumer
  }

  /** The row's content changed and it carries a number never given out before. */
  ghost predicate Renewed(db: Db, row: Row, row': Row) {
    Content(row) != Content(row') && row'.syncSeq > db.counter && row.consumer == row'.consumer &&
      row.phash == row'.phash
  }

  ghost predicate Stamped(row: Row, row': Row, now: int) {
    if row.syncSeq == row'.syncSeq
    then row'.updatedAt == row.updatedAt || (row'.updatedAt == now && row'.status != Deleted)
    else row'.updatedAt == now
  }

  /** Everything the rest of the model needs to know about a step. */
  ghost predicate StepShape(db: Db, db': Db, op: Op) {
    && db.counter <= db'.counter
    && db.nextId <= db'.nextId
    && (forall id :: id in db.rows && id in db'.rows ==>
          && (Same(db.rows[id], db'.rows[id]) || Renewed(db, db.rows[id], db'.rows[id]))
          && Stamped(db.rows[id], db'.rows[id], op.now))
    && (forall id :: id in db'.rows && id !in db.rows ==>
          op.Contribute? && id >= db.nextId && db'.rows[id].syncSeq > db.counter && db'.rows[id].updatedAt == op.now)
    && (forall id :: id in db.rows && id !in db'.rows ==>
          op.Retain? && ValidPolicy(op.policy) && Stale(db.rows[id], op.now - op.policy.tombstone))
  }

  lemma ContributeHasShape(db: Db, s: Submission, now: int)
    requires Bounded(db)
    ensures StepShape(db, Contributed(db, s, now), Op.Contribute(s, now))
  {
    var found := Find(db.rows, s.phash, s.consumer);
    if found.Some? && db.rows[found.value].status == Deleted {
      assert Renewed(db, db.rows[found.value], Contributed(db, s, now).rows[found.value]);
    }
  }

  lemma HitHasShape(db: Db, id: int, hit: HitRow, op: Op)
    requires Bounded(db)
    ensures StepShape(db, HitRecorded(db, id, hit), op)
  {
  }

  lemma FlagHasShape(db: Db, id: int, consumer: int, flag: FlagRow, threshold: nat, op: Op)
    requires Bounded(db) && op.now == flag.createdAt
    ensures StepShape(db, Flagged(db, id, consumer, flag, threshold), op)
  {
  }

  lemma DeleteHasShape(db: Db, id: int, now: int, op: Op)
    requires Bounded(db) && op.now == now
    ensures StepShape(db, SoftDeleted(db, id, now), op)
  {
  }

  lemma RetainHasShape(db: Db, p: Policy, now: int)
    requires Bounded(db) && ValidPolicy(p)
    ensures StepShape(db, Retained(db, p, now), Retain(p, now))
  {
  }

  lemma StepHasShape(db: Db, op: Op, threshold: nat)
    requires Valid(db, threshold)
    ensures StepShape(db, Apply(db, op, threshold), op)
  {
    match op
    case Contribute(s, now) => ContributeHasShape(db, s, now);
    case LoseRace(_, _) =>
    case Hit(id, consumer, guild, distance, now) => HitHasShape(db, id, HitRow(id, consumer, guild, distance, now), op);
    case PlaceFlag(id, consumer, reason, now) => FlagHasShape(db, id, consumer, FlagRow(reason, now), threshold, op);
    case Delete(id, now) => DeleteHasShape(db, id, now, op);
    case Retain(p, now) => if ValidPolicy(p) { RetainHasShape(db, p, now); }
  }

  ghost predicate Revives(db: Db, op: Op, id: int, threshold: nat) {
    && op.Contribute?
    && id in db.rows && db.rows[id].status == Deleted
    && db.rows[id].phash == op.s.phash && db.rows[id].consumer == op.s.consumer
    && id in Apply(db, op, threshold).rows && Apply(db, op, threshold).rows[id].status == Active
  }

  /** Only its owner contributing it again moves a row to another compatibility triple. */
  lemma TripleChangesOnRevival(db: Db, op: Op, id: int, threshold: nat)
    requires Valid(db, threshold)
    requires id in db.rows && id in Apply(db, op, threshold).rows
    requires db.rows[id].triple != Apply(db, op, threshold).rows[id].triple
    ensures Revives(db, op, id, threshold)
  {
  }

  /** The row is new, or has just left the deleted state. */
  predicate Activated(db: Db, db': Db, id: int)
    requires id in db'.rows
  {
    id !in db.rows || (db.rows[id].status == Deleted && db'.rows[id].status == Active)
  }

  /** Which transaction can cause which change of status. */
  lemma StatusChanges(db: Db, op: Op, id: int, threshold: nat)
    requires Valid(db, threshold) && id in Apply(db, op, threshold).rows
    ensures var db' := Apply(db, op, threshold);
            && (Live(db, id) && db'.rows[id].status == Deleted ==> op.Delete? && op.id == id)
            && (db'.rows[id].status == Hidden && !(id in db.rows && db.rows[id].status == Hidden) ==>
                  op.PlaceFlag? && op.id == id && id in db.rows && db.rows[id].status == Active)
            && (id !in db.rows ==> db'.rows[id].status == Active)
  {
    StepHasShape(db, op, threshold);
  }

  lemma ContributeFlaggers(db: Db, s: Submission, now: int, id: int, threshold: nat)
    requires Valid(db, threshold) && id in Contributed(db, s, now).rows
    ensures Flaggers(Contributed(db, s, now).flags, id) ==
            if Activated(db, Contributed(db, s, now), id) then {} else Flaggers(db.flags, id)
  {
    var db' := Contributed(db, s, now);
    forall c ensures c in Flaggers(db'.flags, id) <==> !Activated(db, db', id) && c in Flaggers(db.flags, id) {
      assert c in Flaggers(db'.flags, id) <==> (id, c) in db'.flags;
      assert c in Flaggers(db.flags, id) <==> (id, c) in db.flags;
    }
  }

  lemma FlagLeavesOthers(flags: map<(int, int), FlagRow>, fp: int, consumer: int, flag: FlagRow, id: int)
    requires id != fp
    ensures Flaggers(WithFlag(flags, fp, consumer, flag), id) == Flaggers(flags, id)
  {
    forall c ensures c in Flaggers(WithFlag(flags, fp, consumer, flag), id) <==> c in Flaggers(flags, id) {
      assert (id, c) in WithFlag(flags, fp, consumer, flag) <==> (id, c) in flags;
    }
  }

  lemma FlagFlaggers(db: Db, fp: int, consumer: int, flag: FlagRow, id: int, threshold: nat)
    requires id in db.rows
    ensures var db' := Flagged(db, fp, consumer, flag, threshold);
            && id in db'.rows && !Activated(db, db', id)
            && Flaggers(db'.flags, id) ==
               if fp == id && Live(db, id) then Flaggers(db.flags, id) + {consumer} else Flaggers(db.flags, id)
  {
    if id == fp {
      FlagAddsFlagger(db.flags, fp, consumer, flag);
    } else {
      FlagLeavesOthers(db.flags, fp, consumer, flag, id);
    }
  }

  lemma RetainFlaggers(db: Db, p: Policy, now: int, id: int)
    requires id in Retained(db, p, now).rows
    ensures !Activated(db, Retained(db, p, now), id)
    ensures Flaggers(Retained(db, p, now).flags, id) == Flaggers(db.flags, id)
  {
    var flags' := Retained(db, p, now).flags;
    forall c ensures c in Flaggers(flags', id) <==> c in Flaggers(db.flags, id) {
      assert (id, c) in flags' <==> (id, c) in db.flags;
    }
  }

  /** An activation clears a row's flaggers, a flag adds one, and nothing else touches them. */
  lemma StepFlaggers(db: Db, op: Op, id: int, threshold: nat)
    requires Valid(db, threshold) && id in Apply(db, op, threshold).rows
    ensures Flaggers(Apply(db, op, threshold).flags, id) ==
            if Activated(db, Apply(db, op, threshold), id) then {}
            else if op.PlaceFlag? && op.id == id && Live(db, id) then Flaggers(db.flags, id) + {op.consumer}
            else Flaggers(db.flags, id)
  {
    match op
    case Contribute(s, now) => ContributeFlaggers(db, s, now, id, threshold);
    case PlaceFlag(fp, consumer, reason, now) => FlagFlaggers(db, fp, consumer, FlagRow(reason, now), id, threshold);
    case Retain(p, now) => if ValidPolicy(p) { RetainFlaggers(db, p, now, id); }
    case _ =>
  }

  // ---- the invariant is kept, transaction by transaction ----

  lemma ContributeKeepsValid(db: Db, s: Submission, now: int, threshold: nat)
    requires Valid(db, threshold) && threshold >= 1
    ensures Valid(Contributed(db, s, now), threshold)
  {
    var db' := Contributed(db, s, now);
    var found := Find(db.rows, s.phash, s.consumer);
    assert found.None? ==> forall j :: j in db.rows ==> !Holds(db.rows, j, s.phash, s.consumer);
    assert DistinctSeqs(db'.rows) && OnePerContributor(db'.rows);
    assert Bounded(db') && ForeignKeys(db');
    ContributeKeepsCounts(db, s, now, threshold);
  }

  lemma ContributeKeepsCounts(db: Db, s: Submission, now: int, threshold: nat)
    requires FlagsCounted(db, threshold) && ForeignKeys(db) && Bounded(db) && threshold >= 1
    ensures FlagsCounted(Contributed(db, s, now), threshold)
  {
    var db' := Contributed(db, s, now);
    var found := Find(db.rows, s.phash, s.consumer);
    var id := if found.Some? then found.value else db.nextId;
    assert forall j :: j in db.rows && j != id ==> Flaggers(db'.flags, j) == Flaggers(db.flags, j);
    if db' != db {
      assert Flaggers(db'.flags, id) == {};
    }
  }

  lemma FlagKeepsValid(db: Db, id: int, consumer: int, flag: FlagRow, threshold: nat)
    requires Valid(db, threshold)
    ensures Valid(Flagged(db, id, consumer, flag, threshold), threshold)
  {
    if Live(db, id) {
      var db' := Flagged(db, id, consumer, flag, threshold);
      FlagKeepsCounts(db, id, consumer, flag, threshold);
      assert DistinctSeqs(db'.rows) && OnePerContributor(db'.rows);
      assert Bounded(db') && ForeignKeys(db');
    }
  }

  lemma FlagKeepsCounts(db: Db, id: int, consumer: int, flag: FlagRow, threshold: nat)
    requires FlagsCounted(db, threshold) && Live(db, id)
    ensures FlagsCounted(Flagged(db, id, consumer, flag, threshold), threshold)
  {
    var db' := Flagged(db, id, consumer, flag, threshold);
    forall j | j in db'.rows ensures Counted(db'.rows[j], Flaggers(db'.flags, j), threshold) {
      assert Counted(db.rows[j], Flaggers(db.flags, j), threshold);
      if j != id {
        FlagLeavesOthers(db.flags, id, consumer, flag, j);
      } else {
        FlagAddsFlagger(db.flags, id, consumer, flag);
      }
    }
  }

  lemma FlagAddsFlagger(flags: map<(int, int), FlagRow>, id: int, consumer: int, flag: FlagRow)
    ensures Flaggers(WithFlag(flags, id, consumer, flag), id) == Flaggers(flags, id) + {consumer}
    ensures |Flaggers(flags, id)| <= |Flaggers(WithFlag(flags, id, consumer, flag), id)|
  {
    var flags' := WithFlag(flags, id, consumer, flag);
    forall c ensures c in Flaggers(flags', id) <==> c in Flaggers(flags, id) + {consumer} {
      assert c in Flaggers(flags', id) <==> (id, c) in flags';
      assert c in Flaggers(flags, id) <==> (id, c) in flags;
    }
    assert consumer !in Flaggers(flags, id) ==> |Flaggers(flags, id) + {consumer}| == |Flaggers(flags, id)| + 1;
    assert consumer in Flaggers(flags, id) ==> Flaggers(flags, id) + {consumer} == Flaggers(flags, id);
  }

  lemma RetainKeepsValid(db: Db, p: Policy, now: int, threshold: nat)
    requires Valid(db, threshold)
    ensures Valid(Retained(db, p, now), threshold)
  {
    var db' := Retained(db, p, now);
    assert DistinctSeqs(db'.rows) && OnePerContributor(db'.rows);
    forall j | j in db'.rows ensures Counted(db'.rows[j], Flaggers(db'.flags, j), threshold) {
      assert Counted(db.rows[j], Flaggers(db.flags, j), threshold);
      RetainFlaggers(db, p, now, j);
    }
  }

  lemma RaceKeepsValid(db: Db, s: Submission, threshold: nat)
    requires Valid(db, threshold)
    ensures Valid(RaceLost(db, s), threshold)
  {
  }

  lemma HitKeepsValid(db: Db, id: int, hit: HitRow, threshold: nat)
    requires Valid(db, threshold) && hit.fingerprint == id
    ensures Valid(HitRecorded(db, id, hit), threshold)
  {
    var db' := HitRecorded(db, id, hit);
    assert DistinctSeqs(db'.rows) && OnePerContributor(db'.rows);
    forall j | j in db'.rows ensures Counted(db'.rows[j], Flaggers(db'.flags, j), threshold) {
      assert Counted(db.rows[j], Flaggers(db.flags, j), threshold);
    }
  }

  lemma DeleteKeepsValid(db: Db, id: int, now: int, threshold: nat)
    requires Valid(db, threshold)
    ensures Valid(SoftDeleted(db, id, now), threshold)
  {
    var db' := SoftDeleted(db, id, now);
    assert DistinctSeqs(db'.rows) && OnePerContributor(db'.rows);
    forall j | j in db'.rows ensures Counted(db'.rows[j], Flaggers(db'.flags, j), threshold) {
      assert Counted(db.rows[j], Flaggers(db.flags, j), threshold);
    }
  }

  lemma StepKeepsValid(db: Db, op: Op, threshold: nat)
    requires Valid(db, threshold) && threshold >= 1
    ensures Valid(Apply(db, op, threshold), threshold)
  {
    match op
    case Contribute(s, now) => ContributeKeepsValid(db, s, now, threshold);
    case LoseRace(s, _) => RaceKeepsValid(db, s, threshold);
    case Hit(id, consumer, guild, distance, now) =>
      HitKeepsValid(db, id, HitRow(id, consumer, guild, distance, now), threshold);
    case PlaceFlag(id, consumer, reason, now) => FlagKeepsValid(db, id, consumer, FlagRow(reason, now), threshold);
    case Delete(id, now) => DeleteKeepsValid(db, id, now, threshold);
    case Retain(p, now) => RetainKeepsValid(db, p, now, threshold);
  }

  /** Every state a run reaches is valid; the empty store is. */
  lemma {:induction false} RunKeepsValid(db: Db, ops: seq<Op>, threshold: nat)
    requires Valid(db, threshold) && threshold >= 1
    ensures Valid(Run(db, ops, threshold), threshold)
    decreases |ops|
  {
    if ops == [] {
    } else {
      StepKeepsValid(db, ops[0], threshold);
      RunKeepsValid(Apply(db, ops[0], threshold), ops[1..], threshold);
    }
  }
}
