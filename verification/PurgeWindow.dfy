/**
 Why purge safety measures from the fetch of a drain's last page and not from its completion.

 A page can be fetched just before a deletion and saved long after it.  A client may then complete drains
 less than a tombstone's lifetime apart and still miss the tombstone.
 */
module PurgeWindow {
  import opened Wrappers
  import opened Schema
  import opened Steps
  import opened Invariants
  import opened Feed
  import opened Replication
  import opened SyncRuns

  function Completed(s: Sys, e: Event): seq<int> {
    if e.SaveMark? && s.client.flight.Some? && !s.client.flight.value.page.hasMore then [s.clock] else []
  }

  /** When the client completes its drains. */
  ghost function Completions(s: Sys, events: seq<Event>, threshold: nat): seq<int>
    decreases |events|
  {
    if events == [] || !DistinctSeqs(s.db.rows) || !Enabled(s, events[0]) then []
    else Completed(s, events[0]) + Completions(Next(s, events[0], threshold), events[1..], threshold)
  }

  lemma {:induction false} CompletionsThen(s: Sys, events: seq<Event>, m: Sys, e: Event, threshold: nat, rules: Rules)
    requires Reaches(s, events, m, threshold, rules) && DistinctSeqs(m.db.rows) && Enabled(m, e)
    ensures Completions(s, events + [e], threshold) == Completions(s, events, threshold) + Completed(m, e)
    decreases |events|
  {
    if events == [] {
      assert ([] + [e])[1..] == [];
    } else {
      assert (events + [e])[1..] == events[1..] + [e];
      CompletionsThen(Next(s, events[0], threshold), events[1..], m, e, threshold, rules);
    }
  }

  /** A row is fetched at 0, deleted, saved at `completed`, purged; the client drains again at `again`. */
  datatype Times = Times(deleted: int, completed: int, purged: int, again: int, tombstone: int)

  ghost predicate Possible(x: Times) {
    0 <= x.deleted <= x.completed <= x.purged <= x.again && 0 <= x.tombstone && x.deleted < x.purged - x.tombstone
  }

  const ROW := Row(1, "0123456789abcdef", Triple("phash", "imagehash.phash", "alpha_white_v1"), "scam", "kick", 1,
                   NO_SECRETS, 0, 0, 0, None, false, "manual_staff", Active, 0)

  const PEER := PeerOf(0, ROW)

  function Stored(rows: map<int, Row>, counter: nat): Db {
    Db(rows, map[], map[], counter, 1, 0)
  }

  const LIVE := Stored(map[0 := ROW], 1)
  const GONE := Stored(map[], 2)

  function Dead(x: Times): Db {
    Stored(map[0 := ROW.(syncSeq := 2, updatedAt := x.deleted, status := Deleted)], 2)
  }

  function Follower(replica: map<int, Peer>, mark: int, flight: Option<InFlight>, departed: set<int>): Client {
    Client(2, UNFILTERED, replica, mark, flight, departed)
  }

  function FirstPage(applied: nat): Option<InFlight> {
    Some(InFlight(Page([PEER], 1, false), 1, applied))
  }

  function PolicyOf(x: Times): Policy {
    Policy(x.tombstone, x.tombstone, x.tombstone, x.tombstone)
  }

  function StateAt(x: Times, k: nat): Sys {
    match k
    case 0 => Sys(LIVE, Fresh(2, UNFILTERED), 0, 0, 0)
    case 1 => Sys(LIVE, Follower(map[], 0, FirstPage(0), {}), 0, 0, 0)
    case 2 => Sys(LIVE, Follower(map[0 := PEER], 0, FirstPage(1), {}), 0, 0, 0)
    case 3 => Sys(Dead(x), Follower(map[0 := PEER], 0, FirstPage(1), {}), x.deleted, 0, 0)
    case 4 => Sys(Dead(x), Follower(map[0 := PEER], 0, FirstPage(1), {}), x.completed, 0, 0)
    case 5 => Sys(Dead(x), Follower(map[0 := PEER], 1, None, {}), x.completed, 0, 0)
    case 6 => Sys(GONE, Follower(map[0 := PEER], 1, None, {0}), x.purged, 0, 0)
    case 7 => Sys(GONE, Follower(map[0 := PEER], 1, Some(InFlight(Page([], 1, false), 2, 0)), {0}), x.again, x.again, 0)
    case _ => Sys(GONE, Follower(map[0 := PEER], 1, None, {0}), x.again, x.again, x.again)
  }

  function EventAt(x: Times, k: nat): Event {
    match k
    case 0 => Fetch(1, 1, 0)
    case 1 => ApplyOne
    case 2 => Write(Delete(0, x.deleted))
    case 3 => Write(Delete(0, x.completed))
    case 4 => SaveMark
    case 5 => Write(Retain(PolicyOf(x), x.purged))
    case 6 => Fetch(1, 1, x.again)
    case _ => SaveMark
  }

  lemma PageLinks(x: Times, k: nat)
    requires Possible(x) && (k == 0 || k == 6)
    ensures Link(StateAt(x, k), EventAt(x, k), StateAt(x, k + 1), 1, ClockOrder)
  {
    if k == 0 {
      OneRowPage(0, ROW, 2, UNFILTERED, StateAt(x, k).client.mark);
    } else {
      NoRowPage(2, UNFILTERED, StateAt(x, k).client.mark);
    }
  }

  lemma ClientLinks(x: Times, k: nat)
    requires Possible(x) && (k == 1 || k == 4 || k == 7)
    ensures Link(StateAt(x, k), EventAt(x, k), StateAt(x, k + 1), 1, ClockOrder)
  {
  }

  lemma WriteLinks(x: Times, k: nat)
    requires Possible(x) && (k == 2 || k == 3 || k == 5)
    ensures Link(StateAt(x, k), EventAt(x, k), StateAt(x, k + 1), 1, ClockOrder)
  {
    var s, s' := StateAt(x, k), StateAt(x, k + 1);
    assert Apply(s.db, EventAt(x, k).op, 1) == s'.db;
    assert Departed(s.client, HubOf(s.db), HubOf(s'.db)) == s'.client.departed;
  }

  lemma LinksAt(x: Times, k: nat)
    requires Possible(x) && k < 8
    ensures Link(StateAt(x, k), EventAt(x, k), StateAt(x, k + 1), 1, ClockOrder)
  {
    if k == 0 || k == 6 {
      PageLinks(x, k);
    } else if k == 2 || k == 3 || k == 5 {
      WriteLinks(x, k);
    } else {
      ClientLinks(x, k);
    }
  }

  lemma CompletedAt(x: Times, k: nat)
    requires k < 8
    ensures Completed(StateAt(x, k), EventAt(x, k)) ==
            if k == 4 then [x.completed] else if k == 7 then [x.again] else []
  {
  }

  ghost predicate PurgesBy(events: seq<Event>, x: Times) {
    forall e :: e in events && e.Write? && e.op.Retain? ==> e.op == Retain(PolicyOf(x), x.purged)
  }

  lemma {:induction false} RunReaches(x: Times, n: nat) returns (events: seq<Event>)
    requires Possible(x) && n <= 8
    ensures Reaches(StateAt(x, 0), events, StateAt(x, n), 1, ClockOrder)
    ensures Completions(StateAt(x, 0), events, 1) ==
      (if n > 4 then [x.completed] else []) + (if n > 7 then [x.again] else [])
    ensures PurgesBy(events, x)
  {
    if n == 0 {
      events := [];
    } else {
      var before := RunReaches(x, n - 1);
      var m, e := StateAt(x, n - 1), EventAt(x, n - 1);
      LinksAt(x, n - 1);
      CompletedAt(x, n - 1);
      ReachesThen(StateAt(x, 0), before, m, e, StateAt(x, n), 1, ClockOrder);
      CompletionsThen(StateAt(x, 0), before, m, e, 1, ClockOrder);
      events := before + [e];
    }
  }

  lemma StartIsInit(x: Times)
    ensures Init(StateAt(x, 0), 1)
  {
    assert Flaggers(LIVE.flags, 0) == {};
  }

  /** For all such times the run is possible, completes drains at `completed` and `again`, and strands the row. */
  lemma StrandedRow(x: Times) returns (s: Sys, events: seq<Event>, s': Sys)
    requires Possible(x)
    ensures Init(s, 1) && s.client.filter == UNFILTERED && s.clock == 0
    ensures Reaches(s, events, s', 1, ClockOrder)
    ensures Completions(s, events, 1) == [x.completed, x.again]
    ensures PurgesBy(events, x)
    ensures 0 in s'.client.replica && s'.db.rows == map[]
  {
    events := RunReaches(x, 8);
    StartIsInit(x);
    s, s' := StateAt(x, 0), StateAt(x, 8);
  }

  /** Drains completed eight units apart, with tombstones living ten, still miss a row deleted at 1 and purged at 12. */
  lemma CompletionGapIsNotEnough() returns (s: Sys, events: seq<Event>, s': Sys)
    ensures Init(s, 1) && s.client.filter == UNFILTERED && s.clock == 0
    ensures Reaches(s, events, s', 1, ClockOrder)
    ensures Completions(s, events, 1) == [5, 13]
    ensures forall e :: e in events && e.Write? && e.op.Retain? ==> e.op.policy.tombstone == 10
    ensures 0 in s'.client.replica && s'.db.rows == map[]
  {
    s, events, s' := StrandedRow(Times(1, 5, 12, 13, 10));
  }

  /** The time condition cannot be relaxed: one purge later than it allows, and some client keeps a purged row. */
  lemma TimeBoundIsTight(tombstone: int, purged: int) returns (s: Sys, events: seq<Event>, s': Sys)
    requires 0 <= tombstone < purged
    ensures Init(s, 1) && s.client.filter == UNFILTERED && s.synced == 0
    ensures Reaches(s, events, s', 1, ClockOrder)
    ensures forall e :: e in events && e.Write? && e.op.Retain? ==>
      e.op.policy.tombstone == tombstone && e.op.now == purged
    ensures exists id :: id in s'.client.replica && id !in s'.db.rows
  {
    s, events, s' := StrandedRow(Times(0, 0, purged, purged, tombstone));
    assert 0 in s'.client.replica;
  }
}
