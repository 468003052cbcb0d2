/**
 One client following the real store: transactions, page fetches, row-by-row application,
 watermark saves and crashes, interleaved in any order, with retention purging tombstones.

 Times are those the transactions carry.  `synced` is when the last page of the client's latest
 completed drain was fetched; a new client counts as synced when it starts, empty.
 */
module SyncRuns {
  import opened Schema
  import opened Steps
  import opened Invariants
  import opened Feed
  import opened Replication

  datatype Sys = Sys(db: Db, client: Client, clock: int, fetchedAt: int, synced: int)

  datatype Event =
    | Write(op: Op)
    | Fetch(limit: int, cap: int, now: int)
    | ApplyOne
    | SaveMark
    | CrashClient

  function HubOf(db: Db): Hub {
    Hub(db.rows, db.counter)
  }

  ghost function PageFor(db: Db, c: Client, limit: int, cap: int): Page
    requires DistinctSeqs(db.rows)
  {
    SyncPage(db.rows, c.me, c.filter, c.mark, ClampLimit(limit, cap))
  }

  /** Whether the client's protocol lets the event happen. */
  predicate Enabled(s: Sys, e: Event) {
    match e
    case Write(_) => true
    case Fetch(_, _, _) => s.client.flight.None?
    case ApplyOne => CanApply(s.client)
    case SaveMark => CanSave(s.client)
    case CrashClient => true
  }

  ghost function Next(s: Sys, e: Event, threshold: nat): Sys
    requires DistinctSeqs(s.db.rows) && Enabled(s, e)
  {
    match e
    case Write(op) =>
      var db := Apply(s.db, op, threshold);
      s.(db := db, client := Observe(s.client, HubOf(s.db), HubOf(db)), clock := op.now)
    case Fetch(limit, cap, now) =>
      s.(client := Receive(s.client, PageFor(s.db, s.client, limit, cap), s.db.counter), clock := now, fetchedAt := now)
    case ApplyOne => s.(client := ApplyNext(s.client))
    case SaveMark =>
      s.(client := Save(s.client), synced := if s.client.flight.value.page.hasMore then s.synced else s.fetchedAt)
    case CrashClient => s.(client := Crash(s.client))
  }

  // ---- time ----

  /** What is assumed of the times in a run: nothing, that they do not run backwards, or that purges are timely too. */
  datatype Rules = AnyTimes | ClockOrder | TimelyPurges

  predicate InOrder(s: Sys, e: Event) {
    && (e.Write? ==> s.clock <= e.op.now)
    && (e.Fetch? ==> s.clock <= e.now)
  }

  /** Retention purges only while the client's last completed drain is at most a tombstone's lifetime old. */
  predicate Timely(s: Sys, e: Event) {
    e.Write? && e.op.Retain? ==> e.op.now - e.op.policy.tombstone <= s.synced
  }

  predicate Allowed(s: Sys, e: Event, rules: Rules) {
    && (rules != AnyTimes ==> InOrder(s, e))
    && (rules == TimelyPurges ==> Timely(s, e))
  }

  ghost predicate TimeInv(s: Sys) {
    && s.synced <= s.clock
    && (s.client.flight.Some? ==> s.synced <= s.fetchedAt <= s.clock)
    && (forall id :: InView(s, id) && Stale(s.db.rows[id], s.synced) ==> id !in s.client.replica)
    && (s.client.flight.Some? ==> forall id :: Overtakes(s, id) ==> s.db.rows[id].updatedAt >= s.fetchedAt)
  }

  /** The client's requests ask for this row. */
  predicate InView(s: Sys, id: int) {
    SeesId(s.client, HubOf(s.db), id)
  }

  predicate Overtakes(s: Sys, id: int)
    requires s.client.flight.Some?
  {
    id in s.db.rows && s.db.rows[id].syncSeq > s.client.flight.value.horizon
  }

  ghost predicate SysInv(s: Sys, threshold: nat) {
    && threshold >= 1
    && Valid(s.db, threshold)
    && Inv(HubOf(s.db), s.client)
  }

  /** A new client joins a store in any valid state. */
  ghost predicate Init(s: Sys, threshold: nat) {
    && threshold >= 1
    && Valid(s.db, threshold)
    && s.client == Fresh(s.client.me, s.client.filter)
    && s.synced == s.clock
  }

  lemma InitIsInv(s: Sys, threshold: nat)
    requires Init(s, threshold)
    ensures SysInv(s, threshold) && TimeInv(s)
  {
  }

  // ---- each event keeps the invariant ----

  lemma StoreEvolves(db: Db, op: Op, threshold: nat)
    requires Valid(db, threshold)
    ensures Evolves(HubOf(db), HubOf(Apply(db, op, threshold)))
  {
    StepHasShape(db, op, threshold);
  }

  lemma WriteKeepsInv(s: Sys, op: Op, threshold: nat)
    requires SysInv(s, threshold)
    ensures SysInv(Next(s, Write(op), threshold), threshold)
  {
    StoreEvolves(s.db, op, threshold);
    StepKeepsValid(s.db, op, threshold);
    ObserveKeepsInv(HubOf(s.db), HubOf(Apply(s.db, op, threshold)), s.client);
  }

  lemma FetchKeepsInv(s: Sys, limit: int, cap: int, now: int, threshold: nat)
    requires SysInv(s, threshold) && s.client.flight.None?
    ensures SysInv(Next(s, Fetch(limit, cap, now), threshold), threshold)
  {
    var c, page := s.client, PageFor(s.db, s.client, limit, cap);
    SyncPageIsPage(s.db.rows, c.me, c.filter, c.mark, ClampLimit(limit, cap));
    ReceiveKeepsInv(HubOf(s.db), c, page);
  }

  lemma NextKeepsInv(s: Sys, e: Event, threshold: nat)
    requires SysInv(s, threshold) && Enabled(s, e)
    ensures SysInv(Next(s, e, threshold), threshold)
  {
    match e
    case Write(op) => WriteKeepsInv(s, op, threshold);
    case Fetch(limit, cap, now) => FetchKeepsInv(s, limit, cap, now, threshold);
    case ApplyOne => ApplyNextKeepsInv(HubOf(s.db), s.client);
    case SaveMark => SaveKeepsInv(HubOf(s.db), s.client);
    case CrashClient => CrashKeepsInv(HubOf(s.db), s.client);
  }

  // ---- and, while times do not run backwards, what it says about time ----

  lemma WriteKeepsTime(s: Sys, op: Op, threshold: nat)
    requires SysInv(s, threshold) && TimeInv(s) && InOrder(s, Write(op))
    ensures TimeInv(Next(s, Write(op), threshold))
  {
    var s' := Next(s, Write(op), threshold);
    StepHasShape(s.db, op, threshold);
    forall id | InView(s', id) && Stale(s'.db.rows[id], s.synced) ensures id !in s.client.replica {
      assert id in s.db.rows && Stamped(s.db.rows[id], s'.db.rows[id], op.now);
      assert InView(s, id);
    }
    if s.client.flight.Some? {
      forall id | Overtakes(s', id) ensures s'.db.rows[id].updatedAt >= s.fetchedAt {
        if id in s.db.rows {
          assert Stamped(s.db.rows[id], s'.db.rows[id], op.now);
        }
      }
    }
  }

  lemma ApplyKeepsTime(s: Sys, threshold: nat)
    requires SysInv(s, threshold) && TimeInv(s) && Enabled(s, ApplyOne)
    ensures TimeInv(Next(s, ApplyOne, threshold))
  {
    var fl := s.client.flight.value;
    var p := fl.page.rows[fl.applied];
    assert FlightAgreement(HubOf(s.db), s.client, fl);
    assert Settled(HubOf(s.db), s.client, p, fl.horizon);
    AppliedIsFresh(s, p);
  }

  /** A page does not bring back a row whose tombstone the client has already had the time to see. */
  lemma AppliedIsFresh(s: Sys, p: Peer)
    requires TimeInv(s) && s.client.flight.Some?
    requires Settled(HubOf(s.db), s.client, p, s.client.flight.value.horizon)
    ensures InView(s, p.id) && Stale(s.db.rows[p.id], s.synced) ==> p.status == Deleted
  {
    assert Overtakes(s, p.id) ==> s.db.rows[p.id].updatedAt >= s.fetchedAt;
  }

  lemma SaveKeepsTime(s: Sys, threshold: nat)
    requires SysInv(s, threshold) && TimeInv(s) && Enabled(s, SaveMark)
    ensures TimeInv(Next(s, SaveMark, threshold))
  {
    var fl := s.client.flight.value;
    var s' := Next(s, SaveMark, threshold);
    assert FlightAgreement(HubOf(s.db), s.client, fl);
    SaveKeepsInv(HubOf(s.db), s.client);
    forall id | InView(s', id) && Stale(s'.db.rows[id], s'.synced) ensures id !in s'.client.replica {
      if !fl.page.hasMore {
        assert !Overtakes(s, id);
        assert Agrees(s'.client.replica, id, s'.db.rows[id]);
      }
    }
  }

  lemma NextKeepsTime(s: Sys, e: Event, threshold: nat)
    requires SysInv(s, threshold) && TimeInv(s) && Enabled(s, e) && InOrder(s, e)
    ensures TimeInv(Next(s, e, threshold))
  {
    match e
    case Write(op) => WriteKeepsTime(s, op, threshold);
    case Fetch(_, _, _) =>
    case ApplyOne => ApplyKeepsTime(s, threshold);
    case SaveMark => SaveKeepsTime(s, threshold);
    case CrashClient =>
  }

  /** A timely purge takes no visible row that the client holds or will re-create. */
  lemma PurgedIsForgotten(s: Sys, op: Op, id: int, threshold: nat)
    requires SysInv(s, threshold) && TimeInv(s) && Timely(s, Write(op))
    requires InView(s, id) && id !in Apply(s.db, op, threshold).rows
    ensures !Retains(s.client, id)
  {
    StepHasShape(s.db, op, threshold);
    assert Stale(s.db.rows[id], s.synced);
    if s.client.flight.Some? {
      var fl := s.client.flight.value;
      assert FlightAgreement(HubOf(s.db), s.client, fl);
      forall k | 0 <= k < |fl.page.rows| && fl.page.rows[k].id == id ensures fl.page.rows[k].status != Active {
        assert Settled(HubOf(s.db), s.client, fl.page.rows[k], fl.horizon);
        AppliedIsFresh(s, fl.page.rows[k]);
      }
    }
  }

  // ---- runs ----

  /** `s'` is reached from `s` by these events, each possible when it happens and allowed by the rules. */
  ghost predicate Reaches(s: Sys, events: seq<Event>, s': Sys, threshold: nat, rules: Rules)
    decreases |events|
  {
    if events == [] then s == s'
    else
      && DistinctSeqs(s.db.rows) && Enabled(s, events[0]) && Allowed(s, events[0], rules)
      && Reaches(Next(s, events[0], threshold), events[1..], s', threshold, rules)
  }

  ghost predicate Link(s: Sys, e: Event, s': Sys, threshold: nat, rules: Rules) {
    DistinctSeqs(s.db.rows) && Enabled(s, e) && Allowed(s, e, rules) && Next(s, e, threshold) == s'
  }

  lemma {:induction false} ReachesThen(s: Sys, events: seq<Event>, m: Sys, e: Event, s': Sys, threshold: nat,
      rules: Rules)
    requires Reaches(s, events, m, threshold, rules) && Link(m, e, s', threshold, rules)
    ensures Reaches(s, events + [e], s', threshold, rules)
    decreases |events|
  {
    if events == [] {
      assert ([] + [e])[1..] == [];
    } else {
      assert (events + [e])[1..] == events[1..] + [e];
      ReachesThen(Next(s, events[0], threshold), events[1..], m, e, s', threshold, rules);
    }
  }

  lemma {:induction false} RunKeepsInv(s: Sys, events: seq<Event>, s': Sys, threshold: nat, rules: Rules)
    requires SysInv(s, threshold) && Reaches(s, events, s', threshold, rules)
    ensures SysInv(s', threshold)
    ensures s'.client.me == s.client.me && s'.client.filter == s.client.filter
    decreases |events|
  {
    if events == [] {
    } else {
      NextKeepsInv(s, events[0], threshold);
      RunKeepsInv(Next(s, events[0], threshold), events[1..], s', threshold, rules);
    }
  }

  /**
   At every moment of every run, crashes, half-applied pages and purges of any age included, the replica agrees
   with the hub up to the watermark.
   */
  lemma ReplicaConverges(s: Sys, events: seq<Event>, s': Sys, threshold: nat)
    requires Init(s, threshold) && Reaches(s, events, s', threshold, AnyTimes)
    ensures forall id :: InView(s', id) && s'.db.rows[id].syncSeq <= s'.client.mark ==>
      && Agrees(s'.client.replica, id, s'.db.rows[id])
      && (id in s'.client.replica <==> s'.db.rows[id].status == Active)
      && (id in s'.client.replica ==> Mirrors(s'.client.replica[id], id, s'.db.rows[id]))
  {
    InitIsInv(s, threshold);
    RunKeepsInv(s, events, s', threshold, AnyTimes);
  }

  // ---- how a client comes to hold more than it should ----

  /** The row `id` is contributed again under a triple the client does not follow. */
  ghost predicate RevivedAway(s: Sys, e: Event, id: int, threshold: nat) {
    && e.Write? && Revives(s.db, e.op, id, threshold)
    && InView(s, id)
    && !Matches(s.client.filter, Apply(s.db, e.op, threshold).rows[id].triple)
  }

  /** The row is purged while the client holds it, or is about to. */
  ghost predicate PurgedEarly(s: Sys, e: Event, id: int, threshold: nat) {
    && e.Write? && e.op.Retain?
    && InView(s, id) && Retains(s.client, id)
    && id !in Apply(s.db, e.op, threshold).rows
  }

  lemma DepartsFor(s: Sys, e: Event, id: int, threshold: nat)
    requires SysInv(s, threshold) && Enabled(s, e)
    requires id !in s.client.departed && id in Next(s, e, threshold).client.departed
    ensures RevivedAway(s, e, id, threshold) || PurgedEarly(s, e, id, threshold)
  {
    StepHasShape(s.db, e.op, threshold);
    if id in Apply(s.db, e.op, threshold).rows {
      TripleChangesOnRevival(s.db, e.op, id, threshold);
    }
  }

  /** After some prefix of the run, its next event revives the row away. */
  ghost predicate RevivedAwayDuring(s: Sys, events: seq<Event>, id: int, threshold: nat) {
    exists k, m :: 0 <= k < |events| && Reaches(s, events[..k], m, threshold, AnyTimes) &&
      RevivedAway(m, events[k], id, threshold)
  }

  ghost predicate PurgedEarlyDuring(s: Sys, events: seq<Event>, id: int, threshold: nat) {
    exists k, m :: 0 <= k < |events| && Reaches(s, events[..k], m, threshold, AnyTimes) &&
      PurgedEarly(m, events[k], id, threshold)
  }

  /** Revived away during the run, or, unless purges are timely, purged too early in it. */
  ghost predicate AccountedFor(s: Sys, events: seq<Event>, id: int, threshold: nat, rules: Rules) {
    || RevivedAwayDuring(s, events, id, threshold)
    || (rules != TimelyPurges && PurgedEarlyDuring(s, events, id, threshold))
  }

  /** What happens in the rest of a run happens in the run. */
  lemma LaterIsDuring(s: Sys, events: seq<Event>, id: int, threshold: nat)
    requires events != [] && DistinctSeqs(s.db.rows) && Enabled(s, events[0])
    ensures RevivedAwayDuring(Next(s, events[0], threshold), events[1..], id, threshold) ==>
              RevivedAwayDuring(s, events, id, threshold)
    ensures PurgedEarlyDuring(Next(s, events[0], threshold), events[1..], id, threshold) ==>
              PurgedEarlyDuring(s, events, id, threshold)
  {
    var next, rest := Next(s, events[0], threshold), events[1..];
    forall k, m | 0 <= k < |rest| && Reaches(next, rest[..k], m, threshold, AnyTimes)
      ensures Reaches(s, events[..k + 1], m, threshold, AnyTimes) && events[k + 1] == rest[k]
    {
      assert events[..k + 1][1..] == rest[..k];
    }
  }

  lemma NowIsDuring(s: Sys, events: seq<Event>, id: int, threshold: nat)
    requires events != []
    ensures RevivedAway(s, events[0], id, threshold) ==> RevivedAwayDuring(s, events, id, threshold)
    ensures PurgedEarly(s, events[0], id, threshold) ==> PurgedEarlyDuring(s, events, id, threshold)
  {
    assert Reaches(s, events[..0], s, threshold, AnyTimes);
  }

  lemma {:induction false} DepartedFor(s: Sys, events: seq<Event>, s': Sys, id: int, threshold: nat, rules: Rules)
    requires SysInv(s, threshold) && Reaches(s, events, s', threshold, rules)
    requires rules == TimelyPurges ==> TimeInv(s)
    requires id in s'.client.departed && id !in s.client.departed
    ensures AccountedFor(s, events, id, threshold, rules)
    decreases |events|
  {
    if events == [] {
    } else {
      var e, next := events[0], Next(s, events[0], threshold);
      NextKeepsInv(s, e, threshold);
      if id in next.client.departed {
        DepartsFor(s, e, id, threshold);
        NowIsDuring(s, events, id, threshold);
        if rules == TimelyPurges && PurgedEarly(s, e, id, threshold) {
          PurgedIsForgotten(s, e.op, id, threshold);
        }
      } else {
        if rules == TimelyPurges { NextKeepsTime(s, e, threshold); }
        DepartedFor(next, events[1..], s', id, threshold, rules);
        LaterIsDuring(s, events, id, threshold);
      }
    }
  }

  /**
   Whatever the replica holds that is not visible at the hub was contributed again under a triple the client does
   not follow, or purged while the client held it; and never the latter when purges are timely.
   */
  lemma SurplusIsAccountedFor(s: Sys, events: seq<Event>, s': Sys, id: int, threshold: nat, rules: Rules)
    requires Init(s, threshold) && Reaches(s, events, s', threshold, rules)
    requires id in s'.client.replica && !InView(s', id)
    ensures AccountedFor(s, events, id, threshold, rules)
  {
    InitIsInv(s, threshold);
    RunKeepsInv(s, events, s', threshold, rules);
    assert Retains(s'.client, id);
    DepartedFor(s, events, s', id, threshold, rules);
  }

  /** No replica ever keeps a row the hub has purged, unless the row first moved out of the client's filter. */
  lemma PurgeSafety(s: Sys, events: seq<Event>, s': Sys, threshold: nat)
    requires Init(s, threshold) && Reaches(s, events, s', threshold, TimelyPurges)
    ensures forall id :: id in s'.client.replica && id !in s'.db.rows ==> RevivedAwayDuring(s, events, id, threshold)
    ensures s.client.filter == UNFILTERED ==> s'.client.replica.Keys <= s'.db.rows.Keys
  {
    forall id | id in s'.client.replica && id !in s'.db.rows ensures RevivedAwayDuring(s, events, id, threshold) {
      SurplusIsAccountedFor(s, events, s', id, threshold, TimelyPurges);
    }
    forall id | id in s'.client.replica && s.client.filter == UNFILTERED ensures id in s'.db.rows {
      UnfilteredStays(s, events, id, threshold);
    }
  }

  /** Nothing leaves the view of a client that does not filter except by being purged. */
  lemma UnfilteredStays(s: Sys, events: seq<Event>, id: int, threshold: nat)
    requires Init(s, threshold) && s.client.filter == UNFILTERED
    ensures !RevivedAwayDuring(s, events, id, threshold)
  {
    InitIsInv(s, threshold);
    forall k, m | 0 <= k < |events| && Reaches(s, events[..k], m, threshold, AnyTimes)
      ensures !RevivedAway(m, events[k], id, threshold)
    {
      RunKeepsInv(s, events[..k], m, threshold, AnyTimes);
    }
  }

  // ---- drains ----

  /** The last page of a drain is applied, and nothing has been written since it was fetched. */
  predicate Drained(s: Sys) {
    CanSave(s.client) && !s.client.flight.value.page.hasMore && s.db.counter == s.client.flight.value.horizon
  }

  /**
   The replica agrees with every row the client follows; what else it holds is out of the client's view, and was
   contributed again under a triple the client does not follow or, unless purges are timely, purged too early.
   */
  ghost predicate CaughtUp(s: Sys, events: seq<Event>, s': Sys, replica: map<int, Peer>, threshold: nat, rules: Rules) {
    && (forall id :: InView(s', id) ==> Agrees(replica, id, s'.db.rows[id]))
    && (forall id :: id in replica && id !in View(HubOf(s'.db), s'.client) ==>
          !InView(s', id) && AccountedFor(s, events, id, threshold, rules))
  }

  lemma ExactIsCaughtUp(s: Sys, events: seq<Event>, s': Sys, c: Client, threshold: nat, rules: Rules)
    requires Init(s, threshold) && Reaches(s, events, s', threshold, rules)
    requires Exact(HubOf(s'.db), c)
    requires c.me == s'.client.me && c.filter == s'.client.filter && c.departed == s'.client.departed
    ensures CaughtUp(s, events, s', c.replica, threshold, rules)
  {
    InitIsInv(s, threshold);
    assert View(HubOf(s'.db), c) == View(HubOf(s'.db), s'.client);
    forall id ensures SeesId(c, HubOf(s'.db), id) <==> InView(s', id) {
    }
    forall id | id in c.replica && id !in View(HubOf(s'.db), c) ensures AccountedFor(s, events, id, threshold, rules) {
      DepartedFor(s, events, s', id, threshold, rules);
    }
  }

  /** A drain brings any client up to date, whatever parts of the triple it filters on. */
  lemma FilteredDrain(s: Sys, events: seq<Event>, s': Sys, threshold: nat, rules: Rules)
    requires Init(s, threshold) && Reaches(s, events, s', threshold, rules) && Drained(s')
    ensures CaughtUp(s, events, s', Save(s'.client).replica, threshold, rules)
  {
    InitIsInv(s, threshold);
    RunKeepsInv(s, events, s', threshold, rules);
    DrainIsExact(HubOf(s'.db), s'.client);
    ExactIsCaughtUp(s, events, s', Save(s'.client), threshold, rules);
  }

  lemma UnfilteredView(s: Sys)
    requires s.client.filter == UNFILTERED
    ensures View(HubOf(s.db), s.client) ==
            map id | id in s.db.rows && s.db.rows[id].consumer != s.client.me && s.db.rows[id].status == Active ::
              PeerOf(id, s.db.rows[id])
  {
  }

  lemma NeverDeparts(s: Sys, events: seq<Event>, s': Sys, threshold: nat)
    requires Init(s, threshold) && Reaches(s, events, s', threshold, TimelyPurges) && s.client.filter == UNFILTERED
    ensures s'.client.departed == {}
  {
    InitIsInv(s, threshold);
    forall id ensures id !in s'.client.departed {
      if id in s'.client.departed {
        DepartedFor(s, events, s', id, threshold, TimelyPurges);
        UnfilteredStays(s, events, id, threshold);
      }
    }
  }

  /** After a drain an unfiltered replica is the projection of the others' active rows. */
  lemma UnfilteredDrain(s: Sys, events: seq<Event>, s': Sys, threshold: nat)
    requires Init(s, threshold) && Reaches(s, events, s', threshold, TimelyPurges) && Drained(s')
    requires s.client.filter == UNFILTERED
    ensures Save(s'.client).replica ==
            map id | id in s'.db.rows && s'.db.rows[id].consumer != s.client.me && s'.db.rows[id].status == Active ::
              PeerOf(id, s'.db.rows[id])
    ensures var replica := Save(s'.client).replica;
            && (forall id :: id in replica <==>
                  id in s'.db.rows && s'.db.rows[id].consumer != s.client.me && s'.db.rows[id].status == Active)
            && (forall id :: id in replica ==> Mirrors(replica[id], id, s'.db.rows[id]))
  {
    InitIsInv(s, threshold);
    RunKeepsInv(s, events, s', threshold, TimelyPurges);
    NeverDeparts(s, events, s', threshold);
    DrainIsView(HubOf(s'.db), s'.client);
    UnfilteredView(s');
  }

  // ---- recovery ----

  /** Forget any page in flight, fetch from the saved watermark, and apply every row. */
  ghost function Refetch(db: Db, c: Client, limit: int, cap: int): Client
    requires DistinctSeqs(db.rows)
  {
    ApplyAll(Receive(Crash(c), PageFor(db, c, limit, cap), db.counter))
  }

  lemma RefetchKeepsInv(db: Db, c: Client, limit: int, cap: int)
    requires DistinctSeqs(db.rows) && Bounded(db) && Inv(HubOf(db), c)
    ensures var c' := Refetch(db, c, limit, cap);
            && Inv(HubOf(db), c') && CanSave(c') && Inv(HubOf(db), Save(c'))
            && c'.flight.value.page == PageFor(db, c, limit, cap) && c'.flight.value.horizon == db.counter
            && c'.me == c.me && c'.filter == c.filter && c'.departed == c.departed
            && (c'.flight.value.page.hasMore ==>
                  |Selected(db.rows, c.me, c.filter, Save(c').mark)| < |Selected(db.rows, c.me, c.filter, c.mark)|)
  {
    var page, c' := PageFor(db, c, limit, cap), Refetch(db, c, limit, cap);
    SyncPageIsPage(db.rows, c.me, c.filter, c.mark, ClampLimit(limit, cap));
    CrashKeepsInv(HubOf(db), c);
    ReceiveKeepsInv(HubOf(db), Crash(c), page);
    ApplyAllKeepsInv(HubOf(db), Receive(Crash(c), page, db.counter));
    SaveKeepsInv(HubOf(db), c');
    if page.hasMore {
      SelectionShrinks(db.rows, c.me, c.filter, c.mark, page);
    }
  }

  /** Drain the feed from the saved watermark: refetch and save, until no more is announced. */
  ghost function Recover(db: Db, c: Client, request: nat -> int, cap: int, k: nat): Client
    requires DistinctSeqs(db.rows) && Bounded(db) && Inv(HubOf(db), c)
    decreases |Selected(db.rows, c.me, c.filter, c.mark)|
  {
    RefetchKeepsInv(db, c, request(k), cap);
    var c' := Refetch(db, c, request(k), cap);
    if c'.flight.value.page.hasMore then Recover(db, Save(c'), request, cap, k + 1) else Save(c')
  }

  /** The drain loop ends with an exact replica, and what it holds beyond the view is what had departed before. */
  lemma {:induction false} RecoverIsExact(db: Db, c: Client, request: nat -> int, cap: int, k: nat)
    requires DistinctSeqs(db.rows) && Bounded(db) && Inv(HubOf(db), c)
    ensures var r := Recover(db, c, request, cap, k);
            && Exact(HubOf(db), r)
            && r.me == c.me && r.filter == c.filter && r.departed == c.departed
    decreases |Selected(db.rows, c.me, c.filter, c.mark)|
  {
    RefetchKeepsInv(db, c, request(k), cap);
    var c' := Refetch(db, c, request(k), cap);
    if c'.flight.value.page.hasMore {
      RecoverIsExact(db, Save(c'), request, cap, k + 1);
    } else {
      DrainIsExact(HubOf(db), c');
    }
  }

  /**
   From any reachable state, after any number of crashes, one undisturbed drain brings the client up to date; an
   unfiltered client that saw only timely purges ends with the view and nothing else.
   */
  lemma CrashesAreHarmless(s: Sys, events: seq<Event>, s': Sys, request: nat -> int, cap: int, k: nat,
                           threshold: nat, rules: Rules)
    requires Init(s, threshold) && Reaches(s, events, s', threshold, rules)
    ensures SysInv(s', threshold)
    ensures var replica := Recover(s'.db, s'.client, request, cap, k).replica;
            && CaughtUp(s, events, s', replica, threshold, rules)
            && (s.client.filter == UNFILTERED && rules == TimelyPurges ==> replica == View(HubOf(s'.db), s'.client))
  {
    InitIsInv(s, threshold);
    RunKeepsInv(s, events, s', threshold, rules);
    RecoverIsExact(s'.db, s'.client, request, cap, k);
    var r := Recover(s'.db, s'.client, request, cap, k);
    ExactIsCaughtUp(s, events, s', r, threshold, rules);
    if s.client.filter == UNFILTERED && rules == TimelyPurges {
      NeverDeparts(s, events, s', threshold);
      ExactUndepartedIsView(HubOf(s'.db), s'.client, r);
    }
  }
}
