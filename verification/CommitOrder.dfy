/**
 The sync protocol when drawing a version number and committing it are separate steps.

 A transaction draws its number while it holds the row lock and publishes the row later, so rows can
 become visible out of number order.  The feed is safe when no page reaches past a number
 that is drawn but not yet committed or rolled back; without that rule two writers suffice to lose a change.
 */
module CommitOrder {
  import opened Schema
  import opened Invariants
  import opened Feed
  import opened Replication

  /** A new version of row `id`, numbered but not committed. */
  datatype Draft = Draft(id: int, row: Row)

  datatype Sys = Sys(rows: map<int, Row>, counter: nat, drafts: map<int, Draft>, client: Client)

  datatype Event =
    | Draw(tx: int, draft: Draft)
    | Publish(tx: int)
    | Rollback(tx: int)
      /** a committed update that peers cannot see */
    | Touch(id: int, row: Row)
    | Fetch(page: Page)
    | ApplyOne
    | SaveMark
    | CrashClient

  /** The page stops short of every number that might still be committed. */
  ghost predicate Cleared(drafts: map<int, Draft>, next: int) {
    forall tx :: tx in drafts ==> next < drafts[tx].row.syncSeq
  }

  predicate SameKey(a: Row, b: Row) {
    a.phash == b.phash && a.consumer == b.consumer
  }

  /**
   The row lock and the unique constraint: nobody else is writing this row, a new version keeps its owner and
   hash, and no other row, committed or not, has them.
   */
  ghost predicate CanDraft(s: Sys, d: Draft) {
    && (forall t :: t in s.drafts ==> s.drafts[t].id != d.id && !SameKey(s.drafts[t].row, d.row))
    && (forall id :: id in s.rows ==> (SameKey(s.rows[id], d.row) <==> id == d.id))
  }

  ghost predicate Enabled(s: Sys, e: Event) {
    match e
    case Draw(tx, d) => tx !in s.drafts && d.row.syncSeq == s.counter + 1 && CanDraft(s, d)
    case Publish(tx) => tx in s.drafts
    case Rollback(tx) => tx in s.drafts
    case Touch(id, row) =>
      id in s.rows && PeerOf(id, row) == PeerOf(id, s.rows[id]) && row.consumer == s.rows[id].consumer
    case Fetch(page) => s.client.flight.None? && IsPage(s.rows, s.client.me, s.client.filter, s.client.mark, page)
    case ApplyOne => CanApply(s.client)
    case SaveMark => CanSave(s.client)
    case CrashClient => true
  }

  ghost predicate Careful(s: Sys, e: Event) {
    e.Fetch? ==> Cleared(s.drafts, e.page.next)
  }

  ghost function Commit(s: Sys, rows: map<int, Row>, drafts: map<int, Draft>): Sys {
    Sys(rows, s.counter, drafts, Observe(s.client, HubOf(s), Hub(rows, Horizon(drafts, s.counter))))
  }

  ghost function Next(s: Sys, e: Event): Sys
    requires Enabled(s, e)
  {
    match e
    case Draw(tx, d) => s.(counter := s.counter + 1, drafts := s.drafts[tx := d])
    case Publish(tx) => Commit(s, s.rows[s.drafts[tx].id := s.drafts[tx].row], s.drafts - {tx})
    case Rollback(tx) => s.(drafts := s.drafts - {tx})
    case Touch(id, row) => Commit(s, s.rows[id := row], s.drafts)
    case Fetch(page) => s.(client := Receive(s.client, page, Horizon(s.drafts, s.counter)))
    case ApplyOne => s.(client := ApplyNext(s.client))
    case SaveMark => s.(client := Save(s.client))
    case CrashClient => s.(client := Crash(s.client))
  }

  // ---- the horizon: the greatest number with every uncommitted draw above it ----

  ghost function Horizon(drafts: map<int, Draft>, n: nat): nat {
    if n == 0 || Cleared(drafts, n) then n else Horizon(drafts, n - 1)
  }

  lemma {:induction false} HorizonIsGreatest(drafts: map<int, Draft>, n: nat, m: nat)
    requires m <= n && (m == 0 || Cleared(drafts, m))
    ensures m <= Horizon(drafts, n)
  {
    if m == n || Cleared(drafts, n) {
    } else {
      HorizonIsGreatest(drafts, n - 1, m);
    }
  }

  lemma {:induction false} HorizonIsCleared(drafts: map<int, Draft>, n: nat)
    requires Cleared(drafts, 0)
    ensures Horizon(drafts, n) <= n && Cleared(drafts, Horizon(drafts, n))
  {
    if n == 0 || Cleared(drafts, n) {
    } else {
      HorizonIsCleared(drafts, n - 1);
    }
  }

  ghost function HubOf(s: Sys): Hub {
    Hub(s.rows, Horizon(s.drafts, s.counter))
  }

  // ---- the tables ----

  /** No number is used twice, by committed rows or by drafts, and none is beyond the counter. */
  ghost predicate NumbersDistinct(s: Sys) {
    && DistinctSeqs(s.rows)
    && (forall id :: id in s.rows ==> s.rows[id].syncSeq <= s.counter)
    && (forall t :: t in s.drafts ==> 0 < s.drafts[t].row.syncSeq <= s.counter)
    && (forall t, id :: t in s.drafts && id in s.rows ==> s.drafts[t].row.syncSeq != s.rows[id].syncSeq)
    && (forall t, u :: t in s.drafts && u in s.drafts && s.drafts[t].row.syncSeq == s.drafts[u].row.syncSeq ==> t == u)
  }

  /** An owner and a hash name one row, and a draft is the only one of the row it is a version of. */
  ghost predicate KeysUnique(s: Sys) {
    && OnePerContributor(s.rows)
    && (forall t, id :: t in s.drafts && id in s.rows ==>
          (SameKey(s.rows[id], s.drafts[t].row) <==> id == s.drafts[t].id))
    && (forall t, u :: t in s.drafts && u in s.drafts && t != u ==>
          s.drafts[t].id != s.drafts[u].id && !SameKey(s.drafts[t].row, s.drafts[u].row))
  }

  ghost predicate SysInv(s: Sys) {
    && NumbersDistinct(s)
    && KeysUnique(s)
    && Inv(HubOf(s), s.client)
  }

  lemma TablesKept(s: Sys, e: Event)
    requires NumbersDistinct(s) && KeysUnique(s) && Enabled(s, e)
    ensures NumbersDistinct(Next(s, e)) && KeysUnique(Next(s, e))
  {
    match e
    case Draw(tx, d) => DrawKeepsTables(s, tx, d);
    case Publish(tx) => PublishKeepsTables(s, tx);
    case Rollback(_) =>
    case Touch(id, row) => TouchKeepsTables(s, id, row);
    case Fetch(_) =>
    case ApplyOne =>
    case SaveMark =>
    case CrashClient =>
  }

  lemma DrawKeepsTables(s: Sys, tx: int, d: Draft)
    requires NumbersDistinct(s) && KeysUnique(s) && Enabled(s, Draw(tx, d))
    ensures NumbersDistinct(Next(s, Draw(tx, d))) && KeysUnique(Next(s, Draw(tx, d)))
  {
  }

  lemma PublishKeepsTables(s: Sys, tx: int)
    requires NumbersDistinct(s) && KeysUnique(s) && Enabled(s, Publish(tx))
    ensures NumbersDistinct(Next(s, Publish(tx))) && KeysUnique(Next(s, Publish(tx)))
  {
  }

  lemma TouchKeepsTables(s: Sys, id: int, row: Row)
    requires NumbersDistinct(s) && KeysUnique(s) && Enabled(s, Touch(id, row))
    ensures NumbersDistinct(Next(s, Touch(id, row))) && KeysUnique(Next(s, Touch(id, row)))
  {
    assert row.syncSeq == s.rows[id].syncSeq && SameKey(row, s.rows[id]);
  }

  // ---- every event keeps the invariant ----

  /** A change of drafts or rows that the horizon survives. */
  lemma HorizonGrows(s: Sys, s': Sys)
    requires NumbersDistinct(s) && s.counter <= s'.counter
    requires forall t :: t in s'.drafts ==>
      (t in s.drafts && s'.drafts[t] == s.drafts[t]) || s'.drafts[t].row.syncSeq > s.counter
    ensures Cleared(s.drafts, HubOf(s).horizon) && HubOf(s).horizon <= HubOf(s').horizon
  {
    HorizonIsCleared(s.drafts, s.counter);
    HorizonIsGreatest(s'.drafts, s'.counter, HubOf(s).horizon);
  }

  lemma DrawKeepsInv(s: Sys, e: Event)
    requires SysInv(s) && Enabled(s, e) && (e.Draw? || e.Rollback?)
    ensures Inv(HubOf(Next(s, e)), Next(s, e).client)
  {
    var s' := Next(s, e);
    HorizonGrows(s, s');
    ObserveKeepsInv(HubOf(s), HubOf(s'), s.client);
    NothingDeparts(HubOf(s), HubOf(s'), s.client);
  }

  lemma CommitKeepsInv(s: Sys, e: Event)
    requires SysInv(s) && Enabled(s, e) && (e.Publish? || e.Touch?)
    ensures Inv(HubOf(Next(s, e)), Next(s, e).client)
  {
    var s' := Next(s, e);
    HorizonGrows(s, s');
    CommitEvolves(s, e);
    ObserveKeepsInv(HubOf(s), HubOf(s'), s.client);
  }

  lemma CommitEvolves(s: Sys, e: Event)
    requires SysInv(s) && Enabled(s, e) && (e.Publish? || e.Touch?)
    requires Cleared(s.drafts, HubOf(s).horizon) && HubOf(s).horizon <= HubOf(Next(s, e)).horizon
    ensures Evolves(HubOf(s), HubOf(Next(s, e)))
  {
  }

  lemma FetchKeepsInv(s: Sys, page: Page)
    requires SysInv(s) && Enabled(s, Fetch(page)) && Careful(s, Fetch(page))
    ensures Inv(HubOf(s), Next(s, Fetch(page)).client)
  {
    if page.next > s.client.mark && page.next >= 0 {
      HorizonIsGreatest(s.drafts, s.counter, page.next);
    }
    ReceiveKeepsInv(HubOf(s), s.client, page);
  }

  lemma NextKeepsInv(s: Sys, e: Event)
    requires SysInv(s) && Enabled(s, e) && Careful(s, e)
    ensures SysInv(Next(s, e))
  {
    TablesKept(s, e);
    match e
    case Draw(_, _) => DrawKeepsInv(s, e);
    case Rollback(_) => DrawKeepsInv(s, e);
    case Publish(_) => CommitKeepsInv(s, e);
    case Touch(_, _) => CommitKeepsInv(s, e);
    case Fetch(page) => FetchKeepsInv(s, page);
    case ApplyOne => ApplyNextKeepsInv(HubOf(s), s.client);
    case SaveMark => SaveKeepsInv(HubOf(s), s.client);
    case CrashClient => CrashKeepsInv(HubOf(s), s.client);
  }

  /** What is committed changes by publishing a draft, or by an update peers cannot see, and by nothing else. */
  lemma OnlyCommitsShow(s: Sys, e: Event)
    requires Enabled(s, e)
    ensures e.Publish? ==> Next(s, e).rows == s.rows[s.drafts[e.tx].id := s.drafts[e.tx].row]
    ensures Next(s, e).rows != s.rows ==>
      e.Publish? || (e.Touch? && e.id in s.rows && PeerOf(e.id, e.row) == PeerOf(e.id, s.rows[e.id]))
    ensures e.Publish? || e.Rollback? ==> e.tx !in Next(s, e).drafts
    ensures forall t :: t in s.drafts && !(e.Publish? && e.tx == t) && !(e.Rollback? && e.tx == t) ==>
              t in Next(s, e).drafts && (Next(s, e).drafts[t] == s.drafts[t] || (e.Draw? && e.tx == t))
  {
  }

  // ---- runs ----

  ghost predicate Reaches(s: Sys, events: seq<Event>, s': Sys, careful: bool)
    decreases |events|
  {
    if events == [] then s == s'
    else
      && Enabled(s, events[0]) && (careful ==> Careful(s, events[0]))
      && Reaches(Next(s, events[0]), events[1..], s', careful)
  }

  ghost predicate Init(s: Sys) {
    s == Sys(map[], 0, map[], Fresh(s.client.me, s.client.filter))
  }

  lemma {:induction false} RunKeepsInv(s: Sys, events: seq<Event>, s': Sys)
    requires SysInv(s) && Reaches(s, events, s', true)
    ensures SysInv(s')
    decreases |events|
  {
    if events == [] {
    } else {
      NextKeepsInv(s, events[0]);
      RunKeepsInv(Next(s, events[0]), events[1..], s');
    }
  }

  /** With careful pages no committed change is ever missed, whatever order the transactions commit in. */
  lemma NothingIsMissed(s: Sys, events: seq<Event>, s': Sys)
    requires Init(s) && Reaches(s, events, s', true)
    ensures forall id :: SeesId(s'.client, HubOf(s'), id) && s'.rows[id].syncSeq <= s'.client.mark ==>
      Agrees(s'.client.replica, id, s'.rows[id])
  {
    RunKeepsInv(s, events, s');
  }

  lemma StepKeepsInView(s: Sys, e: Event)
    requires SysInv(s) && Enabled(s, e) && s.client.filter == UNFILTERED && s.client.departed == {}
    ensures Next(s, e).client.departed == {} && Next(s, e).client.filter == UNFILTERED
  {
    if e.Publish? || e.Touch? {
      var s' := Next(s, e);
      forall id ensures id !in s'.client.departed {
        assert SeesId(s.client, HubOf(s), id) ==> SeesId(s.client, HubOf(s'), id);
      }
    }
  }

  lemma {:induction false} UnfilteredNeverDeparts(s: Sys, events: seq<Event>, s': Sys)
    requires SysInv(s) && Reaches(s, events, s', true) && s.client.filter == UNFILTERED && s.client.departed == {}
    ensures s'.client.filter == UNFILTERED && s'.client.departed == {}
    decreases |events|
  {
    if events == [] {
    } else {
      var next := Next(s, events[0]);
      NextKeepsInv(s, events[0]);
      StepKeepsInView(s, events[0]);
      UnfilteredNeverDeparts(next, events[1..], s');
    }
  }

  /**
   The last page of a drain, fetched when every number drawn was committed or rolled back and saved before
   another is drawn, leaves an unfiltered replica equal to the projection of the others' active rows.
   */
  lemma CarefulDrain(s: Sys, events: seq<Event>, s': Sys)
    requires Init(s) && Reaches(s, events, s', true) && s.client.filter == UNFILTERED
    requires CanSave(s'.client) && !s'.client.flight.value.page.hasMore && s'.client.flight.value.horizon == s'.counter
    ensures Save(s'.client).replica == View(HubOf(s'), s'.client)
  {
    RunKeepsInv(s, events, s');
    UnfilteredNeverDeparts(s, events, s');
    DrainIsView(HubOf(s'), s'.client);
  }
}
