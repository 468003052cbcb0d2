/**
 What becomes of a change whose number a page has reached past before it was committed: it is lost.

 This is the other half of module CommitOrder.  The theorem is about every such page in every state that careful
 pages lead to; the run at the end is one of them, with two writers and nothing else.
 */
module LostChange {
  import opened Wrappers
  import opened Schema
  import opened Invariants
  import opened Feed
  import opened Replication
  import opened CommitOrder

  // ---- a page applied to its end ----

  /** After a page, an entry of the replica is one from before or a row of the page. */
  lemma {:induction false} EntriesAfterPage(c: Client, id: int)
    requires c.flight.Some? && id in ApplyAll(c).replica
    ensures || (id in c.replica && ApplyAll(c).replica[id] == c.replica[id])
            || ApplyAll(c).replica[id] in c.flight.value.page.rows
    decreases |c.flight.value.page.rows| - c.flight.value.applied
  {
    if CanApply(c) {
      var fl := c.flight.value;
      assert fl.page.rows[fl.applied] in fl.page.rows;
      EntriesAfterPage(ApplyNext(c), id);
    } else {
    }
  }

  lemma {:induction false} PageApplied(c: Client)
    requires c.flight.Some? && c.flight.value.applied <= |c.flight.value.page.rows|
    ensures var c' := ApplyAll(c);
            && CanSave(c') && c'.flight.value.page == c.flight.value.page
            && c'.me == c.me && c'.filter == c.filter && c'.mark == c.mark
    decreases |c.flight.value.page.rows| - c.flight.value.applied
  {
    if CanApply(c) {
      PageApplied(ApplyNext(c));
    } else {
    }
  }

  function Applies(n: nat): seq<Event> {
    seq(n, _ => ApplyOne)
  }

  lemma {:induction false} AppliesReach(s: Sys, n: nat)
    requires s.client.flight.Some? && n == |s.client.flight.value.page.rows| - s.client.flight.value.applied
    ensures Reaches(s, Applies(n), s.(client := ApplyAll(s.client)), false)
    decreases n
  {
    if n == 0 {
    } else {
      var next := s.(client := ApplyNext(s.client));
      AppliesReach(next, n - 1);
      assert Applies(n)[1..] == Applies(n - 1);
    }
  }

  lemma {:induction false} Append(s: Sys, a: seq<Event>, m: Sys, b: seq<Event>, s': Sys)
    requires Reaches(s, a, m, false) && Reaches(m, b, s', false)
    ensures Reaches(s, a + b, s', false)
    decreases |a|
  {
    if a == [] {
      assert a + b == b;
    } else {
      assert (a + b)[1..] == a[1..] + b;
      Append(Next(s, a[0]), a[1..], m, b, s');
    }
  }

  lemma OneStep(s: Sys, e: Event, careful: bool)
    requires Enabled(s, e) && (careful ==> Careful(s, e))
    ensures Reaches(s, [e], Next(s, e), careful)
  {
    assert [e][1..] == [];
  }

  // ---- every careless page ----

  /** The client after fetching this page, applying all of it and saving the watermark. */
  ghost function AfterPage(s: Sys, page: Page): Client {
    Save(Whole(s, page))
  }

  ghost function Whole(s: Sys, page: Page): (c: Client)
    ensures CanSave(c) && c.flight.value.page == page && c.me == s.client.me && c.filter == s.client.filter
  {
    PageApplied(Receive(s.client, page, Horizon(s.drafts, s.counter)));
    ApplyAll(Receive(s.client, page, Horizon(s.drafts, s.counter)))
  }

  lemma PageReaches(s: Sys, page: Page)
    requires Enabled(s, Fetch(page))
    ensures Reaches(s, [Fetch(page)] + Applies(|page.rows|) + [SaveMark], s.(client := AfterPage(s, page)), false)
  {
    var fetched := Next(s, Fetch(page));
    var applied := s.(client := Whole(s, page));
    OneStep(s, Fetch(page), false);
    AppliesReach(fetched, |page.rows|);
    Append(s, [Fetch(page)], fetched, Applies(|page.rows|), applied);
    OneStep(applied, SaveMark, false);
    Append(s, [Fetch(page)] + Applies(|page.rows|), applied, [SaveMark], s.(client := AfterPage(s, page)));
  }

  /** A number that is drawn and not committed is on no page and in no replica. */
  lemma DraftIsNotHeld(s: Sys, page: Page, tx: int)
    requires SysInv(s) && Enabled(s, Fetch(page)) && tx in s.drafts
    ensures var id, replica := s.drafts[tx].id, AfterPage(s, page).replica;
            id in replica ==> replica[id] != PeerOf(id, s.drafts[tx].row)
  {
    var id, c := s.drafts[tx].id, Receive(s.client, page, Horizon(s.drafts, s.counter));
    HorizonIsCleared(s.drafts, s.counter);
    if id in ApplyAll(c).replica {
      EntriesAfterPage(c, id);
      var p := ApplyAll(c).replica[id];
      if id in c.replica && p == c.replica[id] {
        assert Entry(HubOf(s), s.client, id, p);
      } else {
        var k :| 0 <= k < |page.rows| && page.rows[k] == p;
        assert FromRow(s.rows, s.client.me, s.client.filter, s.client.mark, page.next, page.rows[k]);
      }
    }
  }

  /** A page holds only rows numbered above the watermark it was asked for. */
  lemma OldRowsNeverReturn(rows: map<int, Row>, me: int, f: Filter, since: int, page: Page, id: int)
    requires IsPage(rows, me, f, since, page) && id in rows && rows[id].syncSeq <= since
    ensures PeerOf(id, rows[id]) !in page.rows
  {
    forall k | 0 <= k < |page.rows| ensures page.rows[k] != PeerOf(id, rows[id]) {
      assert FromRow(rows, me, f, since, page.next, page.rows[k]);
    }
  }

  /** The row is at the hub below the watermark, the replica does not reflect it, and no later page will bring it. */
  ghost predicate Lost(s: Sys, id: int) {
    && SeesId(s.client, HubOf(s), id)
    && s.rows[id].syncSeq <= s.client.mark
    && !Agrees(s.client.replica, id, s.rows[id])
    && forall since: int, page: Page ::
         s.client.mark <= since && IsPage(s.rows, s.client.me, s.client.filter, since, page) ==>
         PeerOf(id, s.rows[id]) !in page.rows
  }

  /**
   Whatever careful run came before: once a page reaches past a number that is drawn, is applied and saved, and the
   draft is then committed, the change is lost, unless it is a tombstone for a row the client does not hold.
   */
  lemma PassedDraftIsLost(start: Sys, before: seq<Event>, s: Sys, page: Page, tx: int)
      returns (events: seq<Event>, s': Sys)
    requires Init(start) && Reaches(start, before, s, true)
    requires Enabled(s, Fetch(page))
    requires tx in s.drafts && s.drafts[tx].row.syncSeq <= page.next && Sees(s.client, s.drafts[tx].row)
    ensures events == [Fetch(page)] + Applies(|page.rows|) + [SaveMark] + [Publish(tx)]
    ensures Reaches(s, events, s', false)
    ensures s'.rows == s.rows[s.drafts[tx].id := s.drafts[tx].row] && s'.drafts == s.drafts - {tx}
    ensures s'.counter == s.counter && s'.client.me == s.client.me && s'.client.filter == s.client.filter
    ensures s'.client.flight == None && s'.client.mark == page.next
    ensures var d := s.drafts[tx]; Lost(s', d.id) <==> d.row.status == Active || d.id in s'.client.replica
  {
    RunKeepsInv(start, before, s);
    var d, m := s.drafts[tx], s.(client := AfterPage(s, page));
    PageReaches(s, page);
    s' := Next(m, Publish(tx));
    OneStep(m, Publish(tx), false);
    Append(s, [Fetch(page)] + Applies(|page.rows|) + [SaveMark], m, [Publish(tx)], s');
    events := [Fetch(page)] + Applies(|page.rows|) + [SaveMark] + [Publish(tx)];
    DraftIsNotHeld(s, page, tx);
    forall since: int, later: Page |
      s'.client.mark <= since && IsPage(s'.rows, s'.client.me, s'.client.filter, since, later)
      ensures PeerOf(d.id, d.row) !in later.rows
    {
      OldRowsNeverReturn(s'.rows, s'.client.me, s'.client.filter, since, later, d.id);
    }
  }

  // ---- two writers ----

  function RowNumbered(n: nat, phash: string): Row {
    Row(n, phash, Triple("phash", "imagehash.phash", "alpha_white_v1"), "scam", "kick", 1, NO_SECRETS, 0, 0, 0, None,
        false, "manual_staff", Active, 0)
  }

  const FIRST := Draft(10, RowNumbered(1, "00112233445566ff"))
  const SECOND := Draft(11, RowNumbered(2, "ff66554433221100"))

  lemma TwoDraws(s: Sys, m: Sys, careful: bool)
    requires s == Sys(map[], 0, map[], Fresh(2, UNFILTERED))
    requires m == s.(rows := map[11 := SECOND.row], counter := 2, drafts := map[0 := FIRST])
    ensures Reaches(s, [Draw(0, FIRST), Draw(1, SECOND), Publish(1)], m, careful)
  {
    var s1 := Next(s, Draw(0, FIRST));
    var s2 := Next(s1, Draw(1, SECOND));
    var s3 := Next(s2, Publish(1));
    assert s3.rows == m.rows && s3.drafts == m.drafts;
    assert s3.client.departed == {};
    OneStep(s2, Publish(1), careful);
    assert [Draw(1, SECOND), Publish(1)][1..] == [Publish(1)];
    assert Reaches(s1, [Draw(1, SECOND), Publish(1)], m, careful);
    assert [Draw(0, FIRST), Draw(1, SECOND), Publish(1)][1..] == [Draw(1, SECOND), Publish(1)];
  }

  /**
   Two writers draw 1 and 2 for different fingerprints, the second commits, a client drains up to 2, and then the
   first commits.  The tables are as they should be, and the client has lost the first row.
   */
  lemma TwoWritersLoseAChange() returns (s: Sys, events: seq<Event>, s': Sys)
    ensures Init(s) && Reaches(s, events, s', false)
    ensures s'.drafts == map[] && s'.client.flight == None && s'.counter == s'.client.mark
    ensures OnePerContributor(s'.rows) && DistinctSeqs(s'.rows)
    ensures exists id :: id in s'.rows && s'.rows[id].status == Active && Lost(s', id)
  {
    s := Sys(map[], 0, map[], Fresh(2, UNFILTERED));
    var m := s.(rows := map[11 := SECOND.row], counter := 2, drafts := map[0 := FIRST]);
    var draws := [Draw(0, FIRST), Draw(1, SECOND), Publish(1)];
    var page := Page([PeerOf(11, SECOND.row)], 2, false);
    TwoDraws(s, m, true);
    TwoDraws(s, m, false);
    assert page.rows[0] == PeerOf(11, m.rows[11]);
    var rest;
    rest, s' := PassedDraftIsLost(s, draws, m, page, 0);
    Append(s, draws, m, rest, s');
    events := draws + rest;
    assert s'.rows == map[11 := SECOND.row, 10 := FIRST.row];
  }
}
