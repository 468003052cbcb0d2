/**
 The client side of the sync protocol, over any hub whose changes carry version numbers above a horizon.

 A client fetches a page, applies its rows one at a time, and only then saves the new watermark.
 The hub may change between any two of these steps, and a crash may drop the page at any point.
 The horizon is a number below which no further change will ever appear: the sequence counter when
 transactions are atomic, and the number before the oldest uncommitted draw when they are not.
 */
module Replication {
  import opened Wrappers
  import opened Schema
  import opened Feed

  datatype Hub = Hub(rows: map<int, Row>, horizon: int)

  /** A fetched page, the horizon it was fetched under, and how many of its rows have been applied. */
  datatype InFlight = InFlight(page: Page, horizon: int, applied: nat)

  /**
   `departed` is a history variable: the ids whose row left the client's filter, or was purged while the client
   retained it, and has not come back into view.
   */
  datatype Client = Client(
    me: int,
    filter: Filter,
    replica: map<int, Peer>,
    mark: int,
    flight: Option<InFlight>,
    departed: set<int>)

  function Fresh(me: int, filter: Filter): Client {
    Client(me, filter, map[], 0, None, {})
  }

  predicate Sees(c: Client, row: Row) {
    Visible(row, c.me, c.filter)
  }

  /** The hub has the row, and it is one the client's requests ask for. */
  predicate SeesId(c: Client, h: Hub, id: int) {
    id in h.rows && Sees(c, h.rows[id])
  }

  // ---- the client's steps ----

  function ApplyRow(replica: map<int, Peer>, f: Filter, p: Peer): map<int, Peer> {
    if !Matches(f, p.triple) then replica
    else if p.status != Active then replica - {p.id}
    else replica[p.id := p]
  }

  function Receive(c: Client, page: Page, horizon: int): Client {
    c.(flight := Some(InFlight(page, horizon, 0)))
  }

  predicate CanApply(c: Client) {
    c.flight.Some? && c.flight.value.applied < |c.flight.value.page.rows|
  }

  function ApplyNext(c: Client): Client
    requires CanApply(c)
  {
    var fl := c.flight.value;
    c.(replica := ApplyRow(c.replica, c.filter, fl.page.rows[fl.applied]),
       flight := Some(fl.(applied := fl.applied + 1)))
  }

  predicate CanSave(c: Client) {
    c.flight.Some? && c.flight.value.applied >= |c.flight.value.page.rows|
  }

  function Save(c: Client): Client
    requires CanSave(c)
  {
    c.(mark := c.flight.value.page.next, flight := None)
  }

  function Crash(c: Client): Client {
    c.(flight := None)
  }

  // ---- what the hub may do meanwhile ----

  ghost predicate Unchanged(h: Hub, h': Hub, id: int)
    requires id in h'.rows
  {
    id in h.rows && PeerOf(id, h.rows[id]) == PeerOf(id, h'.rows[id]) && h.rows[id].consumer == h'.rows[id].consumer
  }

  ghost predicate Evolves(h: Hub, h': Hub) {
    && h.horizon <= h'.horizon
    && forall id :: id in h'.rows ==> Unchanged(h, h', id) || h'.rows[id].syncSeq > h.horizon
  }

  /** The client holds the row, or has a page in flight that would make it hold the row. */
  ghost predicate Retains(c: Client, id: int) {
    || id in c.replica
    || (c.flight.Some? && exists p :: p in c.flight.value.page.rows && p.id == id && p.status == Active)
  }

  ghost function Departed(c: Client, h: Hub, h': Hub): set<int> {
    set id | id in c.departed + h.rows.Keys
             && (id in c.departed || (Sees(c, h.rows[id]) && (id in h'.rows || Retains(c, id))))
             && !SeesId(c, h', id)
  }

  ghost function Observe(c: Client, h: Hub, h': Hub): Client {
    c.(departed := Departed(c, h, h'))
  }

  // ---- the invariant ----

  ghost predicate Agrees(replica: map<int, Peer>, id: int, row: Row) {
    if row.status == Active then id in replica && replica[id] == PeerOf(id, row) else id !in replica
  }

  ghost predicate Reflects(replica: map<int, Peer>, p: Peer) {
    if p.status == Active then p.id in replica && replica[p.id] == p else p.id !in replica
  }

  /** A fetched row is still the hub's row, or has been overtaken by a change the client will be sent. */
  ghost predicate Settled(h: Hub, c: Client, p: Peer, horizon: int) {
    SeesId(c, h, p.id) ==> p == PeerOf(p.id, h.rows[p.id]) || h.rows[p.id].syncSeq > horizon
  }

  ghost predicate FlightAgreement(h: Hub, c: Client, fl: InFlight) {
    var page := fl.page;
    && c.mark <= page.next <= fl.horizon <= h.horizon
    && fl.applied <= |page.rows|
    && (forall a, b :: 0 <= a < b < |page.rows| ==> page.rows[a].id != page.rows[b].id)
    && (forall k :: 0 <= k < |page.rows| ==>
          InRange(c, page.rows[k], page.next) && Settled(h, c, page.rows[k], fl.horizon))
    && (forall id :: SeesId(c, h, id) && c.mark < h.rows[id].syncSeq <= page.next ==>
          PeerOf(id, h.rows[id]) in page.rows)
    && (forall k :: 0 <= k < fl.applied ==> Reflects(c.replica, page.rows[k]))
    && (!page.hasMore ==> forall id :: SeesId(c, h, id) ==>
          h.rows[id].syncSeq <= page.next || h.rows[id].syncSeq > fl.horizon)
  }

  ghost predicate InRange(c: Client, p: Peer, next: int) {
    c.mark < p.syncSeq <= next && Matches(c.filter, p.triple)
  }

  /** The replica agrees with the hub up to the watermark, and the page in flight will carry that further. */
  ghost predicate Agreement(h: Hub, c: Client) {
    && c.mark <= h.horizon
    && (forall id :: SeesId(c, h, id) && h.rows[id].syncSeq <= c.mark ==> Agrees(c.replica, id, h.rows[id]))
    && (forall id :: id in c.replica ==> Entry(h, c, id, c.replica[id]))
    && (c.flight.Some? ==> FlightAgreement(h, c, c.flight.value))
  }

  ghost predicate Entry(h: Hub, c: Client, id: int, p: Peer) {
    p.id == id && p.syncSeq <= h.horizon && Matches(c.filter, p.triple)
  }

  /** Whatever the client holds, or is about to, is visible to it or has departed. */
  ghost predicate Accounted(h: Hub, c: Client) {
    && (forall id :: Retains(c, id) ==> id in c.departed || SeesId(c, h, id))
    && (forall id :: id in c.departed ==> !SeesId(c, h, id))
  }

  ghost predicate Inv(h: Hub, c: Client) {
    Agreement(h, c) && Accounted(h, c)
  }

  // ---- every step keeps it ----

  lemma ReceiveKeepsInv(h: Hub, c: Client, page: Page)
    requires Inv(h, c) && c.flight.None?
    requires IsPage(h.rows, c.me, c.filter, c.mark, page) && page.next <= h.horizon
    ensures Inv(h, Receive(c, page, h.horizon))
  {
    var c' := Receive(c, page, h.horizon);
    forall k | 0 <= k < |page.rows|
      ensures InRange(c, page.rows[k], page.next) && SeesId(c, h, page.rows[k].id) &&
        Settled(h, c', page.rows[k], h.horizon)
    {
      assert FromRow(h.rows, c.me, c.filter, c.mark, page.next, page.rows[k]);
    }
    assert FlightAgreement(h, c', c'.flight.value);
  }

  lemma ApplyNextKeepsInv(h: Hub, c: Client)
    requires Inv(h, c) && CanApply(c)
    ensures Inv(h, ApplyNext(c))
  {
    ApplyNextKeepsAgreement(h, c);
    ApplyNextKeepsAccounted(h, c);
  }

  lemma ApplyNextKeepsAgreement(h: Hub, c: Client)
    requires Agreement(h, c) && CanApply(c)
    ensures Agreement(h, ApplyNext(c))
  {
    var fl := c.flight.value;
    var p := fl.page.rows[fl.applied];
    var c' := ApplyNext(c);
    assert InRange(c, p, fl.page.next) && Settled(h, c, p, fl.horizon);
    assert Reflects(c'.replica, p);
    forall k | 0 <= k < |fl.page.rows|
      ensures InRange(c', fl.page.rows[k], fl.page.next) && Settled(h, c', fl.page.rows[k], fl.horizon)
    {
      assert InRange(c, fl.page.rows[k], fl.page.next) && Settled(h, c, fl.page.rows[k], fl.horizon);
    }
    forall k | 0 <= k < fl.applied ensures Reflects(c'.replica, fl.page.rows[k]) {
      assert Reflects(c.replica, fl.page.rows[k]);
    }
    assert FlightAgreement(h, c', c'.flight.value);
    forall id | id in c'.replica ensures Entry(h, c', id, c'.replica[id]) {
      assert id != p.id ==> Entry(h, c, id, c.replica[id]);
    }
  }

  lemma ApplyNextKeepsAccounted(h: Hub, c: Client)
    requires Accounted(h, c) && CanApply(c)
    ensures Accounted(h, ApplyNext(c))
  {
    var fl := c.flight.value;
    var p := fl.page.rows[fl.applied];
    assert p in fl.page.rows;
    forall id | Retains(ApplyNext(c), id) ensures Retains(c, id) {
    }
  }

  lemma SaveKeepsInv(h: Hub, c: Client)
    requires Inv(h, c) && CanSave(c)
    ensures Inv(h, Save(c))
  {
    var fl := c.flight.value;
    forall id | SeesId(c, h, id) && c.mark < h.rows[id].syncSeq <= fl.page.next
      ensures Agrees(c.replica, id, h.rows[id])
    {
      var k :| 0 <= k < |fl.page.rows| && fl.page.rows[k] == PeerOf(id, h.rows[id]);
      assert Reflects(c.replica, fl.page.rows[k]);
    }
    forall id | id in c.replica ensures Entry(h, Save(c), id, c.replica[id]) {
      assert Entry(h, c, id, c.replica[id]);
    }
    forall id | Retains(Save(c), id) ensures Retains(c, id) {
    }
  }

  lemma CrashKeepsInv(h: Hub, c: Client)
    requires Inv(h, c)
    ensures Inv(h, Crash(c))
  {
    forall id | id in c.replica ensures Entry(h, Crash(c), id, c.replica[id]) {
      assert Entry(h, c, id, c.replica[id]);
    }
    forall id | Retains(Crash(c), id) ensures Retains(c, id) {
    }
  }

  /** A row visible now and numbered up to the old horizon was visible before, and peers saw the same. */
  lemma OldIsUnchanged(h: Hub, h': Hub, c: Client, id: int)
    requires Evolves(h, h') && SeesId(c, h', id) && h'.rows[id].syncSeq <= h.horizon
    ensures SeesId(c, h, id) && PeerOf(id, h.rows[id]) == PeerOf(id, h'.rows[id])
  {
    assert Unchanged(h, h', id);
  }

  lemma ObserveKeepsFlight(h: Hub, h': Hub, c: Client, c': Client, fl: InFlight)
    requires FlightAgreement(h, c, fl) && Evolves(h, h') && c' == c.(departed := c'.departed)
    ensures FlightAgreement(h', c', fl)
  {
    forall k | 0 <= k < |fl.page.rows|
      ensures InRange(c', fl.page.rows[k], fl.page.next) && Settled(h', c', fl.page.rows[k], fl.horizon)
    {
      var p := fl.page.rows[k];
      assert InRange(c, p, fl.page.next) && Settled(h, c, p, fl.horizon);
      if SeesId(c', h', p.id) && h'.rows[p.id].syncSeq <= fl.horizon {
        OldIsUnchanged(h, h', c, p.id);
      }
    }
    forall id | SeesId(c', h', id) && h'.rows[id].syncSeq <= fl.horizon
      ensures SeesId(c, h, id) && PeerOf(id, h.rows[id]) == PeerOf(id, h'.rows[id])
    {
      OldIsUnchanged(h, h', c, id);
    }
  }

  lemma ObserveKeepsAgreement(h: Hub, h': Hub, c: Client, c': Client)
    requires Agreement(h, c) && Evolves(h, h') && c' == c.(departed := c'.departed)
    ensures Agreement(h', c')
  {
    if c.flight.Some? {
      ObserveKeepsFlight(h, h', c, c', c.flight.value);
    }
    forall id | SeesId(c', h', id) && h'.rows[id].syncSeq <= c'.mark ensures Agrees(c'.replica, id, h'.rows[id]) {
      OldIsUnchanged(h, h', c, id);
      assert Agrees(c.replica, id, h.rows[id]);
    }
    forall id | id in c'.replica ensures Entry(h', c', id, c'.replica[id]) {
      assert Entry(h, c, id, c.replica[id]);
    }
  }

  /** Purging included: what goes while the client retains it has departed. */
  lemma ObserveKeepsInv(h: Hub, h': Hub, c: Client)
    requires Inv(h, c) && Evolves(h, h')
    ensures Inv(h', Observe(c, h, h'))
  {
    var c' := Observe(c, h, h');
    ObserveKeepsAgreement(h, h', c, c');
    forall id | Retains(c', id) ensures id in c'.departed || SeesId(c', h', id) {
      assert Retains(c, id);
    }
  }

  lemma NothingDeparts(h: Hub, h': Hub, c: Client)
    requires Inv(h, c) && h.rows == h'.rows
    ensures Observe(c, h, h') == c
  {
    forall id ensures id in Departed(c, h, h') <==> id in c.departed {
      assert id in c.departed ==> !SeesId(c, h, id);
    }
    assert Departed(c, h, h') == c.departed;
  }

  // ---- applying what is left of a page ----

  function ApplyAll(c: Client): Client
    requires c.flight.Some?
    decreases |c.flight.value.page.rows| - c.flight.value.applied
  {
    if CanApply(c) then ApplyAll(ApplyNext(c)) else c
  }

  lemma {:induction false} ApplyAllKeepsInv(h: Hub, c: Client)
    requires Inv(h, c) && c.flight.Some?
    ensures var c' := ApplyAll(c);
            && Inv(h, c') && CanSave(c')
            && c'.flight == Some(c.flight.value.(applied := |c.flight.value.page.rows|))
            && c'.mark == c.mark && c'.me == c.me && c'.filter == c.filter && c'.departed == c.departed
    decreases |c.flight.value.page.rows| - c.flight.value.applied
  {
    if CanApply(c) {
      ApplyNextKeepsInv(h, c);
      ApplyAllKeepsInv(h, ApplyNext(c));
    } else {
      assert FlightAgreement(h, c, c.flight.value);
    }
  }

  // ---- what it means for a client ----

  /** Exactly the active rows of others that pass the filter, as peers see them. */
  function View(h: Hub, c: Client): map<int, Peer> {
    map id | id in h.rows && Sees(c, h.rows[id]) && h.rows[id].status == Active :: PeerOf(id, h.rows[id])
  }

  /** The replica agrees with every visible row, and whatever else it holds has departed. */
  ghost predicate Exact(h: Hub, c: Client) {
    && (forall id :: SeesId(c, h, id) ==> Agrees(c.replica, id, h.rows[id]))
    && (forall id :: id in c.replica && id !in View(h, c) ==> id in c.departed && !SeesId(c, h, id))
  }

  lemma ExactIsView(h: Hub, c: Client)
    requires Exact(h, c)
    ensures c.departed == {} ==> c.replica == View(h, c)
  {
    if c.departed == {} {
      forall id ensures id in c.replica <==> id in View(h, c) {
        assert SeesId(c, h, id) ==> Agrees(c.replica, id, h.rows[id]);
      }
      forall id | id in c.replica ensures c.replica[id] == View(h, c)[id] {
        assert SeesId(c, h, id);
      }
    }
  }

  /**
   Saving the last page of a drain leaves the replica exact, if nothing visible changed since that page was fetched.
   */
  lemma DrainIsExact(h: Hub, c: Client)
    requires Inv(h, c) && CanSave(c) && !c.flight.value.page.hasMore
    requires forall id :: SeesId(c, h, id) ==> h.rows[id].syncSeq <= c.flight.value.horizon
    ensures Exact(h, Save(c))
  {
    SaveKeepsInv(h, c);
    var c' := Save(c);
    forall id | SeesId(c', h, id) ensures Agrees(c'.replica, id, h.rows[id]) {
      assert SeesId(c, h, id);
    }
    forall id | id in c'.replica && id !in View(h, c') ensures id in c'.departed {
      assert Retains(c', id);
    }
  }

  lemma ExactUndepartedIsView(h: Hub, c: Client, c': Client)
    requires Exact(h, c') && c'.departed == {} && c'.me == c.me && c'.filter == c.filter
    ensures c'.replica == View(h, c)
  {
    ExactIsView(h, c');
    assert View(h, c') == View(h, c);
  }

  /** A client from whose view nothing has departed ends a drain with exactly the view. */
  lemma DrainIsView(h: Hub, c: Client)
    requires Inv(h, c) && CanSave(c) && !c.flight.value.page.hasMore && c.departed == {}
    requires forall id :: SeesId(c, h, id) ==> h.rows[id].syncSeq <= c.flight.value.horizon
    ensures Save(c).replica == View(h, c)
  {
    DrainIsExact(h, c);
    ExactUndepartedIsView(h, c, Save(c));
  }
}
