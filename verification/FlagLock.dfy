/**
 Flags, hits and deletions statement by statement under the row lock.

 Statements see what is committed when they run, plus their own transaction's writes.  `SELECT ... FOR UPDATE`
 waits for the row lock and holds it to the end.  Creating and resurrecting a row are single steps.
 The main result is that each commit is exactly the atomic transaction of module Steps, applied at that moment.
 */
module FlagLock {
  import opened Schema
  import opened Steps
  import opened Invariants

  /** The part of a fingerprint these transactions read and write. */
  datatype Entry = Entry(status: Status, flaggers: set<int>, flagCount: nat, hitCount: nat)

  datatype Kind = Flagging(consumer: int) | Hitting | Deleting

  datatype Phase = Waiting | Locked | Inserted | Counted | Written | Done

  /** What a flag call returns; `hidden` says that this call hid the row. */
  datatype Reply = Pending | Missing | Replied(flagCount: nat, status: Status, hidden: bool)

  datatype Tx = Tx(kind: Kind, id: int, phase: Phase, seen: Status, inserts: bool, count: nat, reply: Reply)

  /**
   `locks` maps a row to the transaction holding it; `hides` counts the calls that reported hiding it since it was
   last activated.
   */
  datatype Sys = Sys(board: map<int, Entry>, locks: map<int, int>, txs: map<int, Tx>, hides: map<int, nat>)

  datatype Event =
    | Begin(t: int, kind: Kind, id: int)
    | Statement(t: int)
    | Abort(t: int)
    | Create(id: int)
    | Revive(id: int)

  // ---- the transactions in one step ----

  function Hides(e: Entry, consumer: int, threshold: nat): bool {
    e.status == Active && |e.flaggers + {consumer}| >= threshold
  }

  function FlagEntry(e: Entry, consumer: int, threshold: nat): Entry {
    var flaggers := e.flaggers + {consumer};
    Entry(if Hides(e, consumer, threshold) then Hidden else e.status, flaggers, |flaggers|, e.hitCount)
  }

  function AtOnce(e: Entry, kind: Kind, threshold: nat): Entry {
    match kind
    case Flagging(consumer) => FlagEntry(e, consumer, threshold)
    case Hitting => e.(hitCount := e.hitCount + 1)
    case Deleting => e.(status := Deleted)
  }

  function EntryOf(db: Db, id: int): Entry
    requires id in db.rows
  {
    Entry(db.rows[id].status, Flaggers(db.flags, id), db.rows[id].flagCount, db.rows[id].hitCount)
  }

  /** On a live row, `AtOnce` is what the store's transactions do. */
  lemma AtOnceIsTheStore(db: Db, id: int, consumer: int, flag: FlagRow, hit: HitRow, now: int, threshold: nat)
    requires Live(db, id)
    ensures EntryOf(Flagged(db, id, consumer, flag, threshold), id) ==
      AtOnce(EntryOf(db, id), Flagging(consumer), threshold)
    ensures EntryOf(HitRecorded(db, id, hit), id) == AtOnce(EntryOf(db, id), Hitting, threshold)
    ensures EntryOf(SoftDeleted(db, id, now), id) == AtOnce(EntryOf(db, id), Deleting, threshold)
  {
    FlagAddsFlagger(db.flags, id, consumer, flag);
  }

  // ---- the transactions statement by statement ----

  predicate Free(s: Sys, id: int) {
    id !in s.locks
  }

  predicate LiveEntry(s: Sys, id: int) {
    id in s.board && s.board[id].status != Deleted
  }

  predicate Holding(tx: Tx) {
    tx.phase != Waiting && tx.phase != Done
  }

  ghost predicate Enabled(s: Sys, e: Event, locking: bool) {
    match e
    case Begin(t, _, _) => t !in s.txs
    case Statement(t) =>
      && t in s.txs && s.txs[t].phase != Done
      && (s.txs[t].phase == Waiting && locking ==> Free(s, s.txs[t].id))
      && (Holding(s.txs[t]) ==> s.txs[t].id in s.board)
    case Abort(t) => t in s.txs && s.txs[t].phase != Done
    case Create(id) => id !in s.board && Free(s, id)
    case Revive(id) => id in s.board && s.board[id].status == Deleted && Free(s, id)
  }

  /** The first statement: lock the row and look at it.  The deletion is a single guarded update. */
  function First(s: Sys, t: int, tx: Tx, locking: bool): Sys {
    if !LiveEntry(s, tx.id) then s.(txs := s.txs[t := tx.(phase := Done, reply := Missing)])
    else s.(locks := if locking then s.locks[tx.id := t] else s.locks,
            txs := s.txs[t := tx.(phase := if tx.kind.Deleting? then Written else Locked,
                                  seen := s.board[tx.id].status)])
  }

  /** `INSERT ... ON CONFLICT DO NOTHING` for a flag; a hit is always inserted. */
  function Insert(s: Sys, t: int, tx: Tx): Sys
    requires tx.id in s.board
  {
    var inserts := tx.kind.Flagging? && tx.kind.consumer !in s.board[tx.id].flaggers;
    s.(txs := s.txs[t := tx.(phase := Inserted, inserts := inserts)])
  }

  function Seen(tx: Tx, e: Entry): set<int> {
    if tx.kind.Flagging? && tx.inserts then e.flaggers + {tx.kind.consumer} else e.flaggers
  }

  function CountFlags(s: Sys, t: int, tx: Tx): Sys
    requires tx.id in s.board
  {
    s.(txs := s.txs[t := tx.(phase := Counted, count := |Seen(tx, s.board[tx.id])|)])
  }

  function Update(s: Sys, t: int, tx: Tx, threshold: nat): Sys {
    var hidden := tx.count >= threshold && tx.seen == Active;
    s.(txs := s.txs[t := tx.(phase := Written, reply := Replied(tx.count, if hidden then Hidden else tx.seen, hidden))])
  }

  /** The committed row: the buffered update over the row as it is, and the buffered flag. */
  function Committed(tx: Tx, e: Entry): Entry {
    match tx.kind
    case Flagging(_) =>
      Entry(if tx.reply.Replied? && tx.reply.hidden then Hidden else e.status, Seen(tx, e), tx.count, e.hitCount)
    case Hitting => e.(hitCount := e.hitCount + 1)
    case Deleting => e.(status := Deleted)
  }

  function Commit(s: Sys, t: int, tx: Tx): Sys
    requires tx.id in s.board
  {
    Sys(s.board[tx.id := Committed(tx, s.board[tx.id])],
        s.locks - {tx.id},
        s.txs[t := tx.(phase := Done)],
        if tx.reply.Replied? && tx.reply.hidden && tx.id in s.hides
        then s.hides[tx.id := s.hides[tx.id] + 1] else s.hides)
  }

  ghost function Next(s: Sys, e: Event, threshold: nat, locking: bool): Sys
    requires Enabled(s, e, locking)
  {
    match e
    case Begin(t, kind, id) => s.(txs := s.txs[t := Tx(kind, id, Waiting, Active, false, 0, Pending)])
    case Statement(t) =>
      var tx := s.txs[t];
      (match tx.phase
       case Waiting => First(s, t, tx, locking)
       case Locked => Insert(s, t, tx)
       case Inserted => if tx.kind.Flagging? then CountFlags(s, t, tx) else s.(txs := s.txs[t := tx.(phase := Written)])
       case Counted => Update(s, t, tx, threshold)
       case Written => Commit(s, t, tx)
       case Done => s)
    case Abort(t) =>
      s.(locks := if Holding(s.txs[t]) then s.locks - {s.txs[t].id} else s.locks,
         txs := s.txs[t := s.txs[t].(phase := Done, reply := Missing)])
    case Create(id) => s.(board := s.board[id := Entry(Active, {}, 0, 0)], hides := s.hides[id := 0])
    case Revive(id) =>
      s.(board := s.board[id := Entry(Active, {}, 0, s.board[id].hitCount)], hides := s.hides[id := 0])
  }

  // ---- what holding the lock guarantees ----

  /** A transaction past its first statement holds the lock, and what it has read is still so. */
  ghost predicate TxInv(s: Sys, t: int, tx: Tx, threshold: nat) {
    && (tx.phase == Waiting ==> tx.reply == Pending)
    && (Holding(tx) ==> HoldInv(s, t, tx, threshold))
  }

  ghost predicate HoldInv(s: Sys, t: int, tx: Tx, threshold: nat) {
      && tx.id in s.locks && s.locks[tx.id] == t
      && LiveEntry(s, tx.id)
      && tx.seen == s.board[tx.id].status
      && (match tx.kind
          case Flagging(consumer) =>
            && (tx.phase != Locked ==> Seen(tx, s.board[tx.id]) == s.board[tx.id].flaggers + {consumer})
            && (tx.phase == Counted || tx.phase == Written ==> tx.count == |s.board[tx.id].flaggers + {consumer}|)
            && (tx.phase == Written ==>
                  tx.reply ==
                    Replied(tx.count, FlagEntry(s.board[tx.id], consumer, threshold).status,
                      Hides(s.board[tx.id], consumer, threshold)))
          case _ => tx.reply == Pending && tx.phase != Counted)
  }

  /** An active row has fewer than threshold flaggers, and the hiding of a row was reported exactly once. */
  ghost predicate EntryInv(s: Sys, id: int, threshold: nat)
    requires id in s.board
  {
    var e := s.board[id];
    && e.flagCount == |e.flaggers|
    && (e.status == Active ==> |e.flaggers| < threshold)
    && (e.status == Hidden ==> |e.flaggers| >= threshold)
    && id in s.hides
    && s.hides[id] == (if |e.flaggers| >= threshold then 1 else 0)
  }

  /** A lock is held by a transaction that is in progress on that row, and by no other. */
  ghost predicate LocksHeld(s: Sys) {
    forall id :: id in s.locks ==> HeldBy(s, id, s.locks[id])
  }

  ghost predicate HeldBy(s: Sys, id: int, t: int) {
    t in s.txs && Holding(s.txs[t]) && s.txs[t].id == id
  }

  ghost predicate SysInv(s: Sys, threshold: nat) {
    && threshold >= 1
    && LocksHeld(s)
    && (forall t :: t in s.txs ==> TxInv(s, t, s.txs[t], threshold))
    && (forall id :: id in s.board ==> EntryInv(s, id, threshold))
  }

  function ReplyAtOnce(e: Entry, consumer: int, threshold: nat): Reply {
    var e' := FlagEntry(e, consumer, threshold);
    Replied(e'.flagCount, e'.status, e.status == Active && e'.status == Hidden)
  }

  /** A commit under the lock is the atomic transaction, applied to the row as committed at that moment. */
  lemma CommitIsAtomic(s: Sys, t: int, threshold: nat)
    requires SysInv(s, threshold) && t in s.txs && s.txs[t].phase == Written
    ensures var tx := s.txs[t];
            && LiveEntry(s, tx.id)
            && Next(s, Statement(t), threshold, true).board ==
                 s.board[tx.id := AtOnce(s.board[tx.id], tx.kind, threshold)]
            && (tx.kind.Flagging? ==> tx.reply == ReplyAtOnce(s.board[tx.id], tx.kind.consumer, threshold))
  {
    assert TxInv(s, t, s.txs[t], threshold);
  }

  /** No other step of a transaction changes what is committed. */
  lemma OnlyCommitsShow(s: Sys, e: Event, threshold: nat)
    requires SysInv(s, threshold) && Enabled(s, e, true) && !e.Create? && !e.Revive?
    ensures Next(s, e, threshold, true).board == s.board || (e.Statement? && s.txs[e.t].phase == Written)
  {
  }

  lemma OthersUndisturbed(s: Sys, s': Sys, t: int, u: int, id: int, threshold: nat)
    requires u in s.txs && u != t && TxInv(s, u, s.txs[u], threshold)
    requires u in s'.txs && s'.txs[u] == s.txs[u]
    requires id in s.locks ==> s.locks[id] == t
    requires forall j :: j != id && j in s.board ==> j in s'.board && s'.board[j] == s.board[j]
    requires forall j :: j != id && j in s.locks ==> j in s'.locks && s'.locks[j] == s.locks[j]
    ensures TxInv(s', u, s'.txs[u], threshold)
  {
  }

  lemma StatementKeepsLocks(s: Sys, t: int, threshold: nat)
    requires SysInv(s, threshold) && Enabled(s, Statement(t), true)
    ensures LocksHeld(Next(s, Statement(t), threshold, true))
  {
    var s' := Next(s, Statement(t), threshold, true);
    assert TxInv(s, t, s.txs[t], threshold);
    forall id | id in s'.locks ensures HeldBy(s', id, s'.locks[id]) {
      assert id in s.locks ==> HeldBy(s, id, s.locks[id]);
    }
  }

  lemma StatementKeepsInv(s: Sys, t: int, threshold: nat)
    requires SysInv(s, threshold) && Enabled(s, Statement(t), true)
    ensures SysInv(Next(s, Statement(t), threshold, true), threshold)
  {
    StatementKeepsLocks(s, t, threshold);
    var s' := Next(s, Statement(t), threshold, true);
    var tx := s.txs[t];
    assert TxInv(s, t, tx, threshold);
    forall u | u in s'.txs && u != t ensures TxInv(s', u, s'.txs[u], threshold) {
      OthersUndisturbed(s, s', t, u, tx.id, threshold);
    }
    if tx.phase == Written {
      CommitIsAtomic(s, t, threshold);
      CommitKeepsEntries(s, t, threshold);
    } else {
      OwnStatement(s, t, threshold);
      forall id | id in s'.board ensures EntryInv(s', id, threshold) {
        assert EntryInv(s, id, threshold);
      }
    }
  }

  lemma OwnStatement(s: Sys, t: int, threshold: nat)
    requires SysInv(s, threshold) && Enabled(s, Statement(t), true) && s.txs[t].phase != Written
    ensures var s' := Next(s, Statement(t), threshold, true);
            s'.board == s.board && s'.hides == s.hides && TxInv(s', t, s'.txs[t], threshold)
  {
    var tx := s.txs[t];
    assert TxInv(s, t, tx, threshold);
    if tx.kind.Flagging? && tx.id in s.board {
      var flaggers := s.board[tx.id].flaggers;
      assert tx.kind.consumer in flaggers ==> flaggers + {tx.kind.consumer} == flaggers;
    }
  }

  lemma CommitKeepsEntries(s: Sys, t: int, threshold: nat)
    requires SysInv(s, threshold) && t in s.txs && s.txs[t].phase == Written && Enabled(s, Statement(t), true)
    ensures var s' := Next(s, Statement(t), threshold, true);
            forall id :: id in s'.board ==> EntryInv(s', id, threshold)
  {
    var s' := Next(s, Statement(t), threshold, true);
    var tx := s.txs[t];
    CommitIsAtomic(s, t, threshold);
    assert TxInv(s, t, tx, threshold);
    forall id | id in s'.board ensures EntryInv(s', id, threshold) {
      assert EntryInv(s, id, threshold);
      if id == tx.id && tx.kind.Flagging? {
        var flaggers := s.board[id].flaggers;
        assert flaggers + {tx.kind.consumer} == flaggers || |flaggers + {tx.kind.consumer}| == |flaggers| + 1;
      }
    }
  }

  lemma NextKeepsInv(s: Sys, e: Event, threshold: nat)
    requires SysInv(s, threshold) && Enabled(s, e, true)
    ensures SysInv(Next(s, e, threshold, true), threshold)
  {
    var s' := Next(s, e, threshold, true);
    match e
    case Statement(t) => StatementKeepsInv(s, t, threshold);
    case Begin(t, _, _) =>
      forall id | id in s'.locks ensures HeldBy(s', id, s'.locks[id]) { assert HeldBy(s, id, s.locks[id]); }
      forall u | u in s'.txs && u != t ensures TxInv(s', u, s'.txs[u], threshold) {
        assert TxInv(s, u, s.txs[u], threshold);
      }
      forall id | id in s'.board ensures EntryInv(s', id, threshold) { assert EntryInv(s, id, threshold); }
    case Abort(t) =>
      assert TxInv(s, t, s.txs[t], threshold);
      forall id | id in s'.locks ensures HeldBy(s', id, s'.locks[id]) { assert HeldBy(s, id, s.locks[id]); }
      forall u | u in s'.txs && u != t ensures TxInv(s', u, s'.txs[u], threshold) {
        assert TxInv(s, u, s.txs[u], threshold);
      }
      forall id | id in s'.board ensures EntryInv(s', id, threshold) { assert EntryInv(s, id, threshold); }
    case Create(id) => ActivationKeepsInv(s, s', id, threshold);
    case Revive(id) => ActivationKeepsInv(s, s', id, threshold);
  }

  lemma ActivationKeepsInv(s: Sys, s': Sys, id: int, threshold: nat)
    requires SysInv(s, threshold) && Free(s, id)
    requires exists n: nat :: s' == s.(board := s.board[id := Entry(Active, {}, 0, n)], hides := s.hides[id := 0])
    ensures SysInv(s', threshold)
  {
    forall u | u in s'.txs ensures TxInv(s', u, s'.txs[u], threshold) {
      assert TxInv(s, u, s.txs[u], threshold);
    }
    forall j | j in s'.locks ensures HeldBy(s', j, s'.locks[j]) {
      assert HeldBy(s, j, s.locks[j]);
    }
    forall j | j in s'.board ensures EntryInv(s', j, threshold) {
      if j != id { assert EntryInv(s, j, threshold); }
    }
  }

  // ---- runs ----

  ghost predicate Reaches(s: Sys, events: seq<Event>, s': Sys, threshold: nat, locking: bool)
    decreases |events|
  {
    if events == [] then s == s'
    else
      && Enabled(s, events[0], locking)
      && Reaches(Next(s, events[0], threshold, locking), events[1..], s', threshold, locking)
  }

  const START := Sys(map[], map[], map[], map[])

  lemma {:induction false} RunKeepsInv(s: Sys, events: seq<Event>, s': Sys, threshold: nat)
    requires SysInv(s, threshold) && Reaches(s, events, s', threshold, true)
    ensures SysInv(s', threshold)
    decreases |events|
  {
    if events == [] {
    } else {
      NextKeepsInv(s, events[0], threshold);
      RunKeepsInv(Next(s, events[0], threshold, true), events[1..], s', threshold);
    }
  }

  /**
   However any number of transactions interleave, no committed active row has threshold flaggers, and a hidden
   row was reported hidden by exactly one call since it was last activated.
   */
  lemma ThresholdNeverMissed(events: seq<Event>, s: Sys, threshold: nat)
    requires threshold >= 1 && Reaches(START, events, s, threshold, true)
    ensures forall id :: id in s.board ==>
      && (s.board[id].status == Active ==> |s.board[id].flaggers| < threshold)
      && id in s.hides
      && (s.board[id].status == Hidden ==> s.hides[id] == 1)
      && (s.board[id].status == Active ==> s.hides[id] == 0)
  {
    RunKeepsInv(START, events, s, threshold);
    forall id | id in s.board ensures EntryInv(s, id, threshold) {
    }
  }

  // ---- nothing but the lock holds a transaction up ----

  /** The first statement finds nothing exactly if the row is missing or deleted; otherwise the row is locked. */
  lemma FirstStatement(s: Sys, t: int, threshold: nat)
    requires t in s.txs && s.txs[t].phase == Waiting && s.txs[t].reply == Pending && Free(s, s.txs[t].id)
    ensures var id, s' := s.txs[t].id, Next(s, Statement(t), threshold, true);
            && (s'.txs[t].reply == Missing <==> id !in s.board || s.board[id].status == Deleted)
            && (id in s.board && s.board[id].status != Deleted ==>
                  && Holding(s'.txs[t]) && id in s'.locks && s'.locks[id] == t && s'.board == s.board
                  && s'.txs[t].id == id && s'.txs[t].kind == s.txs[t].kind)
            && (id !in s.board || s.board[id].status == Deleted ==> s'.txs[t].phase == Done && s'.board == s.board)
  {
  }

  function StatementsLeft(phase: Phase): nat {
    match phase
    case Waiting => 5
    case Locked => 4
    case Inserted => 3
    case Counted => 2
    case Written => 1
    case Done => 0
  }

  /** A transaction that has the lock commits by its own statements alone, and does what it does at once. */
  lemma {:induction false} RunsToCommit(s: Sys, t: int, threshold: nat) returns (events: seq<Event>, s': Sys)
    requires SysInv(s, threshold) && t in s.txs && Holding(s.txs[t])
    ensures forall e :: e in events ==> e == Statement(t)
    ensures Reaches(s, events, s', threshold, true)
    ensures t in s'.txs && s'.txs[t].phase == Done && s'.locks == s.locks - {s.txs[t].id}
    ensures var tx := s.txs[t];
            && LiveEntry(s, tx.id)
            && s'.board == s.board[tx.id := AtOnce(s.board[tx.id], tx.kind, threshold)]
            && (tx.kind.Flagging? ==> s'.txs[t].reply == ReplyAtOnce(s.board[tx.id], tx.kind.consumer, threshold))
    decreases StatementsLeft(s.txs[t].phase)
  {
    var tx := s.txs[t];
    assert TxInv(s, t, tx, threshold);
    var next := Next(s, Statement(t), threshold, true);
    if tx.phase == Written {
      CommitIsAtomic(s, t, threshold);
      events, s' := [Statement(t)], next;
      assert [Statement(t)][1..] == [];
    } else {
      OwnStatement(s, t, threshold);
      StatementKeepsInv(s, t, threshold);
      var rest;
      rest, s' := RunsToCommit(next, t, threshold);
      events := [Statement(t)] + rest;
      assert events[1..] == rest;
    }
  }

  /**
   Nobody waits for ever: whoever holds a row's lock can run to its commit by its own statements, and the row is
   then free.
   */
  lemma LockIsReleased(events: seq<Event>, s: Sys, id: int, threshold: nat) returns (more: seq<Event>, s': Sys)
    requires threshold >= 1 && Reaches(START, events, s, threshold, true) && id in s.locks
    ensures forall e :: e in more ==> e == Statement(s.locks[id])
    ensures Reaches(s, more, s', threshold, true) && Free(s', id)
  {
    RunKeepsInv(START, events, s, threshold);
    assert HeldBy(s, id, s.locks[id]);
    more, s' := RunsToCommit(s, s.locks[id], threshold);
  }

  // ---- without the lock ----

  const QUIET := Tx(Flagging(5), 0, Waiting, Active, false, 0, Pending)

  function Step(tx: Tx, k: nat): Tx {
    match k
    case 0 => tx
    case 1 => tx.(phase := Locked)
    case 2 => tx.(phase := Inserted, inserts := true)
    case 3 => tx.(phase := Counted, inserts := true, count := 1)
    case 4 => tx.(phase := Written, inserts := true, count := 1, reply := Replied(1, Active, false))
    case _ => tx.(phase := Done, inserts := true, count := 1, reply := Replied(1, Active, false))
  }

  function RaceEntry(a: nat, b: nat): Entry {
    Entry(Active, (if a >= 5 then {5} else {}) + (if b >= 5 then {6} else {}), if a >= 5 || b >= 5 then 1 else 0, 0)
  }

  /** Both flag calls on row 0, `a` and `b` statements in; the first commits before the second. */
  function Race(a: nat, b: nat): Sys {
    Sys(map[0 := RaceEntry(a, b)], map[], map[0 := Step(QUIET, a), 1 := Step(QUIET.(kind := Flagging(6)), b)],
      map[0 := 0])
  }

  /** The statements before the commit show nothing. */
  lemma FirstCallSteps(a: nat, b: nat)
    requires a < 4 && b <= 3
    ensures Enabled(Race(a, b), Statement(0), false)
    ensures Next(Race(a, b), Statement(0), 2, false) == Race(a + 1, b)
  {
    var n, s' := Race(a + 1, b), Next(Race(a, b), Statement(0), 2, false);
    assert s'.txs[0] == n.txs[0] by { assert |{} + {5}| == 1; }
    assert s'.board == n.board && s'.txs == n.txs;
  }

  lemma FirstCallCommits(b: nat)
    requires b <= 3
    ensures Enabled(Race(4, b), Statement(0), false)
    ensures Next(Race(4, b), Statement(0), 2, false) == Race(5, b)
  {
    var n, s' := Race(5, b), Next(Race(4, b), Statement(0), 2, false);
    assert s'.board[0] == n.board[0] by { assert {} + {5} == {5} + {}; }
    assert s'.board == n.board && s'.txs == n.txs && s'.locks == n.locks;
  }

  lemma SecondCallSteps(a: nat, b: nat)
    requires b < 4 && (a == 3 || a == 5) && (b >= 3 ==> a == 5) && (a == 5 ==> b >= 3)
    ensures Enabled(Race(a, b), Statement(1), false)
    ensures Next(Race(a, b), Statement(1), 2, false) == Race(a, b + 1)
  {
    var n, s' := Race(a, b + 1), Next(Race(a, b), Statement(1), 2, false);
    assert s'.txs[1] == n.txs[1] by { assert |{} + {6}| == 1; }
    assert s'.board == n.board && s'.txs == n.txs;
  }

  lemma SecondCallCommits()
    ensures Enabled(Race(5, 4), Statement(1), false)
    ensures Next(Race(5, 4), Statement(1), 2, false) == Race(5, 5)
  {
    var n, s' := Race(5, 5), Next(Race(5, 4), Statement(1), 2, false);
    assert s'.board[0] == n.board[0] by { assert {5} + {} + {6} == {5} + {6}; }
    assert s'.board == n.board && s'.txs == n.txs && s'.locks == n.locks;
  }

  lemma Before(s: Sys, e: Event, rest: seq<Event>, s': Sys, threshold: nat, locking: bool)
    requires Enabled(s, e, locking) && Reaches(Next(s, e, threshold, locking), rest, s', threshold, locking)
    ensures Reaches(s, [e] + rest, s', threshold, locking)
  {
    assert ([e] + rest)[1..] == rest;
  }

  /** Count for both, then update and commit for both. */
  function Turn(k: nat): int {
    if k < 3 || k == 6 || k == 7 then 0 else 1
  }

  function Progress(k: nat): (nat, nat) {
    if k <= 3 then (k, 0) else if k <= 6 then (3, k - 3) else if k <= 8 then (k - 3, 3) else (5, k - 5)
  }

  lemma {:induction false} RaceRuns(k: nat) returns (events: seq<Event>)
    requires k <= 10
    ensures Reaches(Race(Progress(k).0, Progress(k).1), events, Race(5, 5), 2, false)
    decreases 10 - k
  {
    events := [];
    if k < 10 {
      var rest := RaceRuns(k + 1);
      if Progress(k) == (4, 3) {
        FirstCallCommits(3);
      } else if Progress(k) == (5, 4) {
        SecondCallCommits();
      } else if Turn(k) == 0 {
        FirstCallSteps(Progress(k).0, Progress(k).1);
      } else {
        SecondCallSteps(Progress(k).0, Progress(k).1);
      }
      Before(Race(Progress(k).0, Progress(k).1), Statement(Turn(k)), rest, Race(5, 5), 2, false);
      events := [Statement(Turn(k))] + rest;
    }
  }

  /** If the first statement did not lock the row, two flags could reach a threshold of two and leave the row active. */
  lemma WithoutTheLock() returns (events: seq<Event>, s: Sys)
    ensures Reaches(START, events, s, 2, false)
    ensures 0 in s.board && s.board[0].status == Active && |s.board[0].flaggers| == 2
  {
    var race := RaceRuns(0);
    s := Race(5, 5);
    var first, second := Begin(0, Flagging(5), 0), Begin(1, Flagging(6), 0);
    var s1 := Next(START, Create(0), 2, false);
    var s2 := Next(s1, first, 2, false);
    var s3 := Next(s2, second, 2, false);
    assert s3.board[0] == RaceEntry(0, 0);
    assert s3.board == Race(0, 0).board && s3.txs == Race(0, 0).txs;
    Before(s2, second, race, s, 2, false);
    Before(s1, first, [second] + race, s, 2, false);
    Before(START, Create(0), [first] + ([second] + race), s, 2, false);
    events := [Create(0)] + ([first] + ([second] + race));
  }
}
