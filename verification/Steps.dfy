/**
 The store's transactions as functions from one database state to the next.

 Every transaction is one atomic step.  `nextval` is the increment of `counter`; a gap in the
 numbers is harmless.
 */
module Steps {
  import opened Wrappers
  import opened Schema

  /** What a contributor sends, its free text already encrypted. */
  datatype Submission = Submission(
    consumer: int,
    phash: string,
    triple: Triple,
    category: string,
    action: string,
    secrets: Secrets,
    autoAdded: bool,
    provenance: string)

  /** Retention periods, in milliseconds. */
  datatype Policy = Policy(hit: int, flagReason: int, tombstoneMetadata: int, tombstone: int)

  datatype Report = Report(hitsDeleted: nat, reasonsCleared: nat, anonymized: nat, purged: nat)

  datatype Op =
    | Contribute(s: Submission, now: int)
      /** a contribute that lost the insert race: the counters are spent, nothing else happens */
    | LoseRace(s: Submission, now: int)
    | Hit(id: int, consumer: int, guild: Option<string>, distance: Option<int>, now: int)
    | PlaceFlag(id: int, consumer: int, reason: Option<string>, now: int)
    | Delete(id: int, now: int)
    | Retain(policy: Policy, now: int)

  ghost predicate Holds(rows: map<int, Row>, id: int, phash: string, consumer: int) {
    id in rows && rows[id].phash == phash && rows[id].consumer == consumer
  }

  ghost function Find(rows: map<int, Row>, phash: string, consumer: int): (found: Option<int>)
    ensures found.Some? ==> Holds(rows, found.value, phash, consumer)
    ensures found.None? ==> forall id :: !Holds(rows, id, phash, consumer)
  {
    if exists id :: Holds(rows, id, phash, consumer)
    then var id :| Holds(rows, id, phash, consumer); Some(id)
    else None
  }

  function NewRow(s: Submission, stamp: nat, now: int): Row {
    Row(stamp, s.phash, s.triple, s.category, s.action, s.consumer, s.secrets, now, now, 0, None,
        s.autoAdded, s.provenance, Active, 0)
  }

  /** A resurrected row keeps its identity, its owner and its hit statistics. */
  function RevivedRow(row: Row, s: Submission, stamp: nat, now: int): Row {
    row.(syncSeq := stamp, triple := s.triple, category := s.category, action := s.action,
    secrets := s.secrets, autoAdded := s.autoAdded, provenance := s.provenance,
    status := Active, addedAt := now, updatedAt := now, flagCount := 0)
  }

  ghost function Contributed(db: Db, s: Submission, now: int): Db {
    match Find(db.rows, s.phash, s.consumer)
    case Some(id) =>
      if db.rows[id].status != Deleted then db
      else db.(flags := map k | k in db.flags && k.0 != id :: db.flags[k],
               counter := db.counter + 1,
               rows := db.rows[id := RevivedRow(db.rows[id], s, db.counter + 1, now)])
    case None =>
      db.(counter := db.counter + 1,
          nextId := db.nextId + 1,
          rows := db.rows[db.nextId := NewRow(s, db.counter + 1, now)])
  }

  ghost function RaceLost(db: Db, s: Submission): Db {
    if Find(db.rows, s.phash, s.consumer).None? then db
    else db.(counter := db.counter + 1, nextId := db.nextId + 1)
  }

  predicate Live(db: Db, id: int) {
    id in db.rows && db.rows[id].status != Deleted
  }

  function HitRecorded(db: Db, id: int, hit: HitRow): Db {
    if !Live(db, id) then db
    else db.(hits := db.hits[db.nextHitId := hit],
             nextHitId := db.nextHitId + 1,
             rows := db.rows[id := db.rows[id].(hitCount := db.rows[id].hitCount + 1, lastHitAt := Some(hit.hitAt))])
  }

  function WithFlag(flags: map<(int, int), FlagRow>, id: int, consumer: int, flag: FlagRow): map<(int, int), FlagRow> {
    if (id, consumer) in flags then flags else flags[(id, consumer) := flag]
  }

  function Flagged(db: Db, id: int, consumer: int, flag: FlagRow, threshold: nat): Db {
    if !Live(db, id) then db
    else
      var flags := WithFlag(db.flags, id, consumer, flag);
      var count := |Flaggers(flags, id)|;
      var row := db.rows[id].(flagCount := count, updatedAt := flag.createdAt);
      if count >= threshold && row.status == Active
      then db.(flags := flags, counter := db.counter + 1,
        rows := db.rows[id := row.(status := Hidden, syncSeq := db.counter + 1)])
      else db.(flags := flags, rows := db.rows[id := row])
  }

  function SoftDeleted(db: Db, id: int, now: int): Db {
    if !Live(db, id) then db
    else db.(counter := db.counter + 1,
             rows := db.rows[id := db.rows[id].(status := Deleted, syncSeq := db.counter + 1, updatedAt := now)])
  }

  predicate ValidPolicy(p: Policy) {
    p.hit >= 0 && p.flagReason >= 0 && p.tombstoneMetadata >= 0 && p.tombstone >= 0 &&
      p.tombstoneMetadata <= p.tombstone
  }

  predicate Stale(row: Row, cutoff: int) {
    row.status == Deleted && row.updatedAt < cutoff
  }

  /** Tombstones that retention removes physically. */
  function Purged(rows: map<int, Row>, p: Policy, now: int): set<int> {
    set id | id in rows && Stale(rows[id], now - p.tombstone)
  }

  function Scrubbed(row: Row, p: Policy, now: int): Row {
    if Stale(row, now - p.tombstoneMetadata) then row.(secrets := NO_SECRETS) else row
  }

  function ReasonCleared(flag: FlagRow, p: Policy, now: int): FlagRow {
    if flag.createdAt < now - p.flagReason then flag.(reason := None) else flag
  }

  /** Purging a tombstone takes its flags and hits with it. */
  function Retained(db: Db, p: Policy, now: int): Db {
    var gone := Purged(db.rows, p, now);
    db.(rows := map id | id in db.rows && id !in gone :: Scrubbed(db.rows[id], p, now),
        flags := map k | k in db.flags && k.0 !in gone :: ReasonCleared(db.flags[k], p, now),
        hits := map h | h in db.hits && db.hits[h].hitAt >= now - p.hit &&
          db.hits[h].fingerprint !in gone :: db.hits[h])
  }

  function ExpiredHits(db: Db, p: Policy, now: int): set<int> {
    set h | h in db.hits && db.hits[h].hitAt < now - p.hit
  }

  function ExpiredReasons(db: Db, p: Policy, now: int): set<(int, int)> {
    set k | k in db.flags && db.flags[k].reason.Some? && db.flags[k].createdAt < now - p.flagReason
  }

  function ExpiredMetadata(db: Db, p: Policy, now: int): set<int> {
    set id | id in db.rows && !Stale(db.rows[id], now - p.tombstone)
             && Stale(db.rows[id], now - p.tombstoneMetadata) && db.rows[id].secrets != NO_SECRETS
  }

  function ReportOf(db: Db, p: Policy, now: int): Report {
    Report(|ExpiredHits(db, p, now)|, |ExpiredReasons(db, p, now)|, |ExpiredMetadata(db, p, now)|,
      |Purged(db.rows, p, now)|)
  }

  ghost function Apply(db: Db, op: Op, threshold: nat): Db {
    match op
    case Contribute(s, now) => Contributed(db, s, now)
    case LoseRace(s, _) => RaceLost(db, s)
    case Hit(id, consumer, guild, distance, now) => HitRecorded(db, id, HitRow(id, consumer, guild, distance, now))
    case PlaceFlag(id, consumer, reason, now) => Flagged(db, id, consumer, FlagRow(reason, now), threshold)
    case Delete(id, now) => SoftDeleted(db, id, now)
    case Retain(p, now) => if ValidPolicy(p) then Retained(db, p, now) else db
  }

  ghost function Run(db: Db, ops: seq<Op>, threshold: nat): Db
    decreases |ops|
  {
    if ops == [] then db else Run(Apply(db, ops[0], threshold), ops[1..], threshold)
  }
}
