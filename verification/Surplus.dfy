/**
 Exactly when a client that filters on the compatibility triple keeps a row that has left its filter.

 No page names a row the client does not follow, so such a row's entry is frozen: kept if the client held it,
 absent if it did not, until the row comes back into view.  The run at the end shows it happening, and shows
 the entry outliving the row itself although every purge is timely.
 */
module Surplus {
  import opened Wrappers
  import opened Schema
  import opened Steps
  import opened Invariants
  import opened Feed
  import opened Replication
  import opened SyncRuns

  /** The page in flight has a row, applied or not, for this id. */
  ghost predicate Mentions(c: Client, id: int) {
    c.flight.Some? && exists p :: p in c.flight.value.page.rows && p.id == id
  }

  /** What the replica says of `id`, if anything. */
  function Held(c: Client, id: int): Option<Peer> {
    if id in c.replica then Some(c.replica[id]) else None
  }

  /** The row is out of the client's view before and after each event of the run. */
  ghost predicate OutOfView(s: Sys, events: seq<Event>, id: int, threshold: nat)
    decreases |events|
  {
    && !InView(s, id)
    && (events != [] && DistinctSeqs(s.db.rows) && Enabled(s, events[0]) ==>
          OutOfView(Next(s, events[0], threshold), events[1..], id, threshold))
  }

  lemma PagesOmitUnseen(s: Sys, limit: int, cap: int, id: int)
    requires DistinctSeqs(s.db.rows) && !InView(s, id)
    ensures forall p :: p in PageFor(s.db, s.client, limit, cap).rows ==> p.id != id
  {
    var c, page := s.client, PageFor(s.db, s.client, limit, cap);
    SyncPageIsPage(s.db.rows, c.me, c.filter, c.mark, ClampLimit(limit, cap));
    forall k | 0 <= k < |page.rows| ensures page.rows[k].id != id {
      assert FromRow(s.db.rows, c.me, c.filter, c.mark, page.next, page.rows[k]);
    }
  }

  lemma StepFreezes(s: Sys, e: Event, id: int, threshold: nat)
    requires DistinctSeqs(s.db.rows) && Enabled(s, e) && !InView(s, id) && !Mentions(s.client, id)
    ensures var c := Next(s, e, threshold).client; !Mentions(c, id) && Held(c, id) == Held(s.client, id)
  {
    match e
    case Write(_) =>
    case Fetch(limit, cap, _) => PagesOmitUnseen(s, limit, cap, id);
    case ApplyOne =>
      var fl := s.client.flight.value;
      var p := fl.page.rows[fl.applied];
      assert p in fl.page.rows && p.id != id;
    case SaveMark =>
    case CrashClient =>
  }

  /** While a row is out of view, and no page from before names it, the client's entry for it is frozen. */
  lemma {:induction false} UnseenIsFrozen(s: Sys, events: seq<Event>, s': Sys, id: int, threshold: nat, rules: Rules)
    requires Reaches(s, events, s', threshold, rules)
    requires OutOfView(s, events, id, threshold) && !Mentions(s.client, id)
    ensures !InView(s', id) && !Mentions(s'.client, id) && Held(s'.client, id) == Held(s.client, id)
    decreases |events|
  {
    if events == [] {
    } else {
      StepFreezes(s, events[0], id, threshold);
      UnseenIsFrozen(Next(s, events[0], threshold), events[1..], s', id, threshold, rules);
    }
  }

  /**
   The exact condition.  When a row is contributed again under a triple the client does not follow, and no page in
   flight names it, the client has a surplus entry for it at every later moment until the row comes back into view
   if it held the row at that moment, and at none of them if it did not.
   */
  lemma SurplusIffHeld(s: Sys, e: Event, events: seq<Event>, s': Sys, id: int, threshold: nat, rules: Rules)
    requires DistinctSeqs(s.db.rows) && Enabled(s, e) && RevivedAway(s, e, id, threshold) && !Mentions(s.client, id)
    requires Reaches(Next(s, e, threshold), events, s', threshold, rules)
    requires OutOfView(Next(s, e, threshold), events, id, threshold)
    ensures id in s'.client.replica && id !in View(HubOf(s'.db), s'.client) <==> id in s.client.replica
    ensures id in s.client.replica ==> id in s'.client.replica && s'.client.replica[id] == s.client.replica[id]
  {
    UnseenIsFrozen(Next(s, e, threshold), events, s', id, threshold, rules);
    assert Held(s'.client, id) == Held(s.client, id);
  }

  // ---- a run ----

  const MINE := Triple("phash", "imagehash.phash", "alpha_white_v1")
  const OTHER := Triple("phash", "imagehash.phash", "alpha_black_v1")
  const FOLLOWS := Filter(Some("phash"), Some("imagehash.phash"), Some("alpha_white_v1"))

  function Sent(t: Triple): Submission {
    Submission(1, "0123456789abcdef", t, "scam", "kick", NO_SECRETS, false, "manual_staff")
  }

  /** The fingerprint 0 as consumer 1 contributed it, under this triple, number and status. */
  function RowOf(t: Triple, stamp: nat, status: Status): Row {
    NewRow(Sent(t), stamp, 0).(status := status)
  }

  function Table(t: Triple, stamp: nat, status: Status): Db {
    Db(map[0 := RowOf(t, stamp, status)], map[], map[], stamp, 1, 0)
  }

  /** Client 2 with a watermark, holding the row as first contributed or nothing. */
  function Follower(holds: bool, mark: int, flight: Option<InFlight>, departed: set<int>): Client {
    Client(2, FOLLOWS, if holds then map[0 := PeerOf(0, RowOf(MINE, 1, Active))] else map[], mark, flight, departed)
  }

  function LastPage(rows: seq<Peer>, next: int, horizon: int, applied: nat): Option<InFlight> {
    Some(InFlight(Page(rows, next, false), horizon, applied))
  }

  function StateAt(k: nat): Sys {
    var first := [PeerOf(0, RowOf(MINE, 1, Active))];
    match k
    case 0 => Sys(Table(MINE, 1, Active), Follower(false, 0, None, {}), 0, 0, 0)
    case 1 => Sys(Table(MINE, 1, Active), Follower(false, 0, LastPage(first, 1, 1, 0), {}), 0, 0, 0)
    case 2 => Sys(Table(MINE, 1, Active), Follower(true, 0, LastPage(first, 1, 1, 1), {}), 0, 0, 0)
    case 3 => Sys(Table(MINE, 1, Active), Follower(true, 1, None, {}), 0, 0, 0)
    case 4 => Sys(Table(MINE, 2, Deleted), Follower(true, 1, None, {}), 0, 0, 0)
    case 5 => Sys(Table(OTHER, 3, Active), Follower(true, 1, None, {0}), 0, 0, 0)
    case 6 => Sys(Table(OTHER, 3, Active), Follower(true, 1, LastPage([], 1, 3, 0), {0}), 0, 0, 0)
    case 7 => Sys(Table(OTHER, 3, Active), Follower(true, 1, None, {0}), 0, 0, 0)
    case 8 => Sys(Table(OTHER, 4, Deleted), Follower(true, 1, None, {0}), 0, 0, 0)
    case 9 => Sys(Table(OTHER, 4, Deleted), Follower(true, 1, LastPage([], 1, 4, 0), {0}), 1, 1, 0)
    case 10 => Sys(Table(OTHER, 4, Deleted), Follower(true, 1, None, {0}), 1, 1, 1)
    case _ => Sys(Db(map[], map[], map[], 4, 1, 0), Follower(true, 1, None, {0}), 1, 1, 1)
  }

  function EventAt(k: nat): Event {
    match k
    case 0 => Fetch(1, 1, 0)
    case 1 => ApplyOne
    case 2 => SaveMark
    case 3 => Write(Delete(0, 0))
    case 4 => Write(Op.Contribute(Sent(OTHER), 0))
    case 5 => Fetch(1, 1, 0)
    case 6 => SaveMark
    case 7 => Write(Delete(0, 0))
    case 8 => Fetch(1, 1, 1)
    case 9 => SaveMark
    case _ => Write(Retain(Policy(0, 0, 0, 0), 1))
  }

  /** Deleting the row changes nothing else, and moves nothing into or out of view. */
  lemma DeleteLinks(t: Triple, stamp: nat, s: Sys, s': Sys)
    requires s.db == Table(t, stamp, Active) && s.clock == 0 && s' == s.(db := Table(t, stamp + 1, Deleted))
    requires s.client.departed == if Matches(s.client.filter, t) then {} else {0}
    ensures Link(s, Write(Delete(0, 0)), s', 3, TimelyPurges)
  {
    var next := Next(s, Write(Delete(0, 0)), 3);
    assert next.db.rows == s'.db.rows;
    assert next.client.departed == s.client.departed;
  }

  /** Contributing the row again under the other triple takes it out of view. */
  lemma ReviveLinks(s: Sys, s': Sys)
    requires s.db == Table(MINE, 2, Deleted) && s.client == Follower(true, 1, None, {}) && s.clock == 0
    requires s' == s.(db := Table(OTHER, 3, Active), client := Follower(true, 1, None, {0}))
    ensures Link(s, Write(Op.Contribute(Sent(OTHER), 0)), s', 3, TimelyPurges)
  {
    var next := Next(s, Write(Op.Contribute(Sent(OTHER), 0)), 3);
    assert Holds(s.db.rows, 0, "0123456789abcdef", 1);
    assert Find(s.db.rows, "0123456789abcdef", 1) == Some(0);
    assert next.db.rows == s'.db.rows;
    assert next.client.departed == {0};
  }

  /** The purge is timely: the client completed a drain after the deletion. */
  lemma PurgeLinks(s: Sys, s': Sys)
    requires s.db == Table(OTHER, 4, Deleted) && s.client == Follower(true, 1, None, {0})
    requires s.clock == 1 && s.synced == 1 && s' == s.(db := Db(map[], map[], map[], 4, 1, 0))
    ensures Link(s, Write(Retain(Policy(0, 0, 0, 0), 1)), s', 3, TimelyPurges)
  {
    var next := Next(s, Write(Retain(Policy(0, 0, 0, 0), 1)), 3);
    assert next.db.rows == map[] && next.db.flags == map[] && next.db.hits == map[];
    assert next.client.departed == {0};
  }

  lemma FetchLinks(t: Triple, stamp: nat, status: Status, s: Sys, now: int, s': Sys)
    requires s.db == Table(t, stamp, status) && s.client.flight == None && s.clock <= now
    requires s.client.me == 2 && s.client.filter == FOLLOWS && s.client.mark < stamp
    requires s'.client == s.client.(flight :=
               if Matches(FOLLOWS, t) then LastPage([PeerOf(0, RowOf(t, stamp, status))], stamp, stamp, 0)
               else LastPage([], s.client.mark, stamp, 0))
    requires s' == s.(client := s'.client, clock := now, fetchedAt := now)
    ensures Link(s, Fetch(1, 1, now), s', 3, TimelyPurges)
  {
    OneRowPage(0, RowOf(t, stamp, status), 2, FOLLOWS, s.client.mark);
  }

  lemma WriteLinks(k: nat)
    requires k == 3 || k == 4 || k == 7 || k == 10
    ensures Link(StateAt(k), EventAt(k), StateAt(k + 1), 3, TimelyPurges)
  {
    if k == 3 {
      DeleteLinks(MINE, 1, StateAt(k), StateAt(k + 1));
    } else if k == 4 {
      ReviveLinks(StateAt(k), StateAt(k + 1));
    } else if k == 7 {
      DeleteLinks(OTHER, 3, StateAt(k), StateAt(k + 1));
    } else {
      PurgeLinks(StateAt(k), StateAt(k + 1));
    }
  }

  lemma PageLinks(k: nat)
    requires k == 0 || k == 5 || k == 8
    ensures Link(StateAt(k), EventAt(k), StateAt(k + 1), 3, TimelyPurges)
  {
    if k == 0 {
      FetchLinks(MINE, 1, Active, StateAt(k), 0, StateAt(k + 1));
    } else if k == 5 {
      FetchLinks(OTHER, 3, Active, StateAt(k), 0, StateAt(k + 1));
    } else {
      FetchLinks(OTHER, 4, Deleted, StateAt(k), 1, StateAt(k + 1));
    }
  }

  lemma ClientLinks(k: nat)
    requires k == 1 || k == 2 || k == 6 || k == 9
    ensures Link(StateAt(k), EventAt(k), StateAt(k + 1), 3, TimelyPurges)
  {
  }

  lemma LinksAt(k: nat)
    requires k < 11
    ensures Link(StateAt(k), EventAt(k), StateAt(k + 1), 3, TimelyPurges)
  {
    if k == 3 || k == 4 || k == 7 || k == 10 {
      WriteLinks(k);
    } else if k == 0 || k == 5 || k == 8 {
      PageLinks(k);
    } else {
      ClientLinks(k);
    }
  }

  lemma {:induction false} RunReaches(n: nat) returns (events: seq<Event>)
    requires n <= 11
    ensures Reaches(StateAt(0), events, StateAt(n), 3, TimelyPurges)
  {
    if n == 0 {
      events := [];
    } else {
      var before := RunReaches(n - 1);
      LinksAt(n - 1);
      ReachesThen(StateAt(0), before, StateAt(n - 1), EventAt(n - 1), StateAt(n), 3, TimelyPurges);
      events := before + [EventAt(n - 1)];
    }
  }

  lemma StartIsInit(s: Sys)
    requires s == StateAt(0)
    ensures Init(s, 3) && s.client.filter == FOLLOWS
  {
    assert Flaggers(s.db.flags, 0) == {};
  }

  /** A client that follows one triple drains the feed and ends with an entry for a row under another. */
  lemma SurplusAfterDrain() returns (s: Sys, events: seq<Event>, s': Sys)
    ensures Init(s, 3) && s.client.filter == FOLLOWS && Reaches(s, events, s', 3, TimelyPurges) && Drained(s')
    ensures 0 in Save(s'.client).replica && 0 !in View(HubOf(s'.db), s'.client)
    ensures 0 in s'.db.rows && s'.db.rows[0].status == Active && !Matches(FOLLOWS, s'.db.rows[0].triple)
  {
    s, s' := StateAt(0), StateAt(6);
    events := RunReaches(6);
    StartIsInit(s);
  }

  /** And the entry outlives the row: a filtering client keeps what the hub has purged, with every purge timely. */
  lemma SurplusAfterPurge() returns (s: Sys, events: seq<Event>, s': Sys)
    ensures Init(s, 3) && s.client.filter == FOLLOWS && Reaches(s, events, s', 3, TimelyPurges)
    ensures 0 in s'.client.replica && s'.db.rows == map[]
  {
    s, s' := StateAt(0), StateAt(11);
    events := RunReaches(11);
    StartIsInit(s);
  }
}
