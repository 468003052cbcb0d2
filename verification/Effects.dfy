/**
 What a transaction does to the row it names, said without the functions that compute it, and what it leaves alone.
 */
module Effects {
  import opened Wrappers
  import opened Schema
  import opened Steps
  import opened Invariants

  /** The row a transaction may write; retention is apart, and a lost race writes none. */
  ghost predicate Names(db: Db, op: Op, id: int) {
    match op
    case Contribute(s, _) => Holds(db.rows, id, s.phash, s.consumer) || id == db.nextId
    case LoseRace(_, _) => false
    case Hit(fp, _, _, _, _) => id == fp
    case PlaceFlag(fp, _, _, _) => id == fp
    case Delete(fp, _) => id == fp
    case Retain(_, _) => true
  }

  /** The row, the flags and the hits of `id` are as they were. */
  ghost predicate Untouched(db: Db, db': Db, id: int) {
    && (id in db'.rows <==> id in db.rows) && (id in db.rows ==> db'.rows[id] == db.rows[id])
    && (forall c :: (id, c) in db'.flags <==> (id, c) in db.flags)
    && (forall c :: (id, c) in db.flags ==> db'.flags[(id, c)] == db.flags[(id, c)])
    && (forall h :: h in db.hits && db.hits[h].fingerprint == id ==> h in db'.hits && db'.hits[h] == db.hits[h])
    && (forall h :: h in db'.hits && db'.hits[h].fingerprint == id ==> h in db.hits)
  }

  lemma ContributeTouches(db: Db, s: Submission, now: int, id: int)
    requires !Holds(db.rows, id, s.phash, s.consumer) && id != db.nextId
    ensures Untouched(db, Contributed(db, s, now), id)
  {
  }

  lemma HitTouches(db: Db, fp: int, hit: HitRow, id: int)
    requires Bounded(db) && fp != id && hit.fingerprint == fp
    ensures Untouched(db, HitRecorded(db, fp, hit), id)
  {
    assert db.nextHitId !in db.hits;
  }

  /** No transaction but retention touches the row, the flags or the hits of any fingerprint it does not name. */
  lemma OthersUntouched(db: Db, op: Op, id: int, threshold: nat)
    requires Valid(db, threshold) && !Names(db, op, id)
    ensures Untouched(db, Apply(db, op, threshold), id)
  {
    match op
    case Contribute(s, now) => ContributeTouches(db, s, now, id);
    case LoseRace(_, _) =>
    case Hit(fp, consumer, guild, distance, now) => HitTouches(db, fp, HitRow(fp, consumer, guild, distance, now), id);
    case PlaceFlag(_, _, _, _) =>
    case Delete(_, _) =>
    case Retain(_, _) =>
  }

  /**
   A contribution that is not a duplicate leaves an active row with everything the contributor sent, a version
   number above all others, no flags, and both its times reset.  A resurrected row keeps its identity and its
   hit statistics; a new one starts them at zero.
   */
  lemma ContributionTakesEffect(db: Db, s: Submission, now: int, id: int, threshold: nat)
    requires Valid(db, threshold)
    requires Holds(Contributed(db, s, now).rows, id, s.phash, s.consumer)
    requires !Live(db, id)
    ensures var db' := Contributed(db, s, now);
            var row := db'.rows[id];
            && Live(db', id) && Content(row) == (s.phash, s.triple, s.category, s.action, Active)
            && row.consumer == s.consumer && row.secrets == s.secrets && row.provenance == s.provenance
            && row.autoAdded == s.autoAdded
            && row.addedAt == now && row.updatedAt == now
            && row.flagCount == 0 && Flaggers(db'.flags, id) == {}
            && (forall j :: j in db'.rows && j != id ==> db'.rows[j].syncSeq < row.syncSeq)
            && db'.hits == db.hits && HitRows(db'.hits, id) == HitRows(db.hits, id)
            && (if id in db.rows then row.hitCount == db.rows[id].hitCount && row.lastHitAt == db.rows[id].lastHitAt
                else row.hitCount == 0 && row.lastHitAt == None && HitRows(db.hits, id) == {})
  {
    var db' := Contributed(db, s, now);
    var found := Find(db.rows, s.phash, s.consumer);
    if found.Some? {
      assert Holds(db.rows, id, s.phash, s.consumer) && id == found.value;
    } else {
      assert !Holds(db.rows, id, s.phash, s.consumer) && id == db.nextId;
    }
    ContributeFlaggers(db, s, now, id, threshold);
    if id !in db.rows {
      forall c ensures c !in Flaggers(db.flags, id) {
        assert c in Flaggers(db.flags, id) <==> (id, c) in db.flags;
      }
    }
    forall h ensures id in db.rows || h !in HitRows(db.hits, id) {
    }
    assert id in db.rows || HitRows(db.hits, id) == {};
  }

  /** A live fingerprint of the same owner and hash answers every further contribution, whatever it says. */
  lemma DuplicateChangesNothing(db: Db, s: Submission, now: int, s': Submission, now': int, threshold: nat)
    requires Valid(db, threshold) && s.phash == s'.phash && s.consumer == s'.consumer
    ensures Contributed(Contributed(db, s, now), s', now') == Contributed(db, s, now)
  {
    ContributeKeepsUnique(db, s, now, threshold);
    var db' := Contributed(db, s, now);
    var found := Find(db'.rows, s.phash, s.consumer);
    var first := Find(db.rows, s.phash, s.consumer);
    var id := if first.Some? then first.value else db.nextId;
    assert Holds(db'.rows, id, s.phash, s.consumer);
    assert found == Some(id) && db'.rows[id].status != Deleted;
  }

  lemma ContributeKeepsUnique(db: Db, s: Submission, now: int, threshold: nat)
    requires Valid(db, threshold)
    ensures OnePerContributor(Contributed(db, s, now).rows)
  {
    var found := Find(db.rows, s.phash, s.consumer);
    assert found.None? ==> forall j :: j in db.rows ==> !Holds(db.rows, j, s.phash, s.consumer);
  }

  /** A consumer's second flag counts for nothing: only the time of the row's last update moves. */
  lemma FlaggingIsIdempotent(db: Db, id: int, consumer: int, flag: FlagRow, flag': FlagRow, threshold: nat)
    requires Live(db, id)
    ensures var once := Flagged(db, id, consumer, flag, threshold);
            && id in once.rows
            && Flagged(once, id, consumer, flag', threshold) ==
               once.(rows := once.rows[id := once.rows[id].(updatedAt := flag'.createdAt)])
  {
    var once := Flagged(db, id, consumer, flag, threshold);
    var twice := Flagged(once, id, consumer, flag', threshold);
    assert (id, consumer) in once.flags && WithFlag(once.flags, id, consumer, flag') == once.flags;
    assert twice.rows == once.rows[id := once.rows[id].(updatedAt := flag'.createdAt)];
  }

  /**
   Owners take back what they gave: a deletion and a new contribution bring the same row back under a higher number.
   */
  lemma DeletedThenContributed(db: Db, s: Submission, id: int, now: int, now': int, threshold: nat)
    requires Valid(db, threshold) && threshold >= 1 && Live(db, id) && Holds(db.rows, id, s.phash, s.consumer)
    ensures var db' := Contributed(SoftDeleted(db, id, now), s, now');
            && db'.rows.Keys == db.rows.Keys && db'.nextId == db.nextId
            && Content(db'.rows[id]) == (s.phash, s.triple, s.category, s.action, Active)
            && db'.rows[id].hitCount == db.rows[id].hitCount
            && db'.rows[id].syncSeq > db.rows[id].syncSeq
            && Flaggers(db'.flags, id) == {}
  {
    var gone := SoftDeleted(db, id, now);
    assert Apply(db, Delete(id, now), threshold) == gone;
    StepKeepsValid(db, Delete(id, now), threshold);
    assert Holds(gone.rows, id, s.phash, s.consumer);
    assert Find(gone.rows, s.phash, s.consumer) == Some(id);
    ContributionTakesEffect(gone, s, now', id, threshold);
  }

  /** A hit on a live row counts, is the last, and is stored as reported; nothing else changes. */
  lemma HitTakesEffect(db: Db, id: int, consumer: int, guild: Option<string>, distance: Option<int>, now: int,
      threshold: nat)
    requires Bounded(db) && id in db.rows && db.rows[id].status != Deleted
    ensures var db' := Apply(db, Hit(id, consumer, guild, distance, now), threshold);
            && db'.rows ==
               db.rows[id := db.rows[id].(hitCount := db.rows[id].hitCount + 1, lastHitAt := Some(now))]
            && (exists h :: h !in db.hits
                  && db'.hits == db.hits[h := HitRow(fingerprint := id, consumer := consumer, guild := guild,
                                                     distance := distance, hitAt := now)])
            && db'.flags == db.flags && db'.counter == db.counter && db'.nextId == db.nextId
  {
    assert db.nextHitId !in db.hits;
  }

  /**
   A consumer's first flag on a live row is stored with its reason and time; the row's count is then its stored
   flags, and the row is hidden under a fresh number exactly if it was active and they reach the threshold.
   */
  lemma FlagTakesEffect(db: Db, id: int, consumer: int, reason: Option<string>, now: int, threshold: nat)
    requires id in db.rows && db.rows[id].status != Deleted
    ensures var db' := Apply(db, PlaceFlag(id, consumer, reason, now), threshold);
            var stored := |set k | k in db'.flags && k.0 == id|;
            var hides := stored >= threshold && db.rows[id].status == Active;
            && db'.flags == (if (id, consumer) in db.flags then db.flags
                             else db.flags[(id, consumer) := FlagRow(reason := reason, createdAt := now)])
            && db'.rows ==
               db.rows[id := if hides
                             then db.rows[id].(flagCount := stored, updatedAt := now, status := Hidden,
                               syncSeq := db.counter + 1)
                             else db.rows[id].(flagCount := stored, updatedAt := now)]
            && db'.counter == db.counter + (if hides then 1 else 0)
            && db'.hits == db.hits && db'.nextId == db.nextId && db'.nextHitId == db.nextHitId
  {
    var db' := Apply(db, PlaceFlag(id, consumer, reason, now), threshold);
    FlaggersCountFlagRows(db'.flags, id);
  }

  /** A deletion turns a live row into a tombstone under a fresh number; its other columns, flags and hits stay. */
  lemma DeletionTakesEffect(db: Db, id: int, now: int, threshold: nat)
    requires id in db.rows && db.rows[id].status != Deleted
    ensures var db' := Apply(db, Delete(id, now), threshold);
            && db'.rows == db.rows[id := db.rows[id].(status := Deleted, syncSeq := db.counter + 1, updatedAt := now)]
            && db'.counter == db.counter + 1
            && db'.flags == db.flags && db'.hits == db.hits && db'.nextId == db.nextId && db'.nextHitId == db.nextHitId
  {
  }

  /** Hits, flags and deletions of a missing or deleted row change nothing at all. */
  lemma DeadRowsStay(db: Db, op: Op, threshold: nat)
    requires op.Hit? || op.PlaceFlag? || op.Delete?
    requires op.id !in db.rows || db.rows[op.id].status == Deleted
    ensures Apply(db, op, threshold) == db
  {
  }

  /**
   A contribution that loses the insert race to another of its hash and owner spends two numbers and writes nothing.
   */
  lemma LostRaceSpendsNumbers(db: Db, s: Submission, now: int, threshold: nat)
    ensures var db' := Apply(db, LoseRace(s, now), threshold);
            && db'.rows == db.rows && db'.flags == db.flags && db'.hits == db.hits && db'.nextHitId == db.nextHitId
            && var spent := if exists id :: Holds(db.rows, id, s.phash, s.consumer) then 1 else 0;
               db'.counter == db.counter + spent && db'.nextId == db.nextId + spent
  {
  }
}
