/** Browsing by descending id with limit and offset, while the store goes on changing. */
module Listing {
  import opened Wrappers
  import opened Schema
  import opened Steps
  import opened Invariants
  import opened Feed

  datatype Query = Query(category: Option<string>, algorithm: Option<string>, consumer: Option<int>,
      includeHidden: bool)

  predicate Listable(row: Row, q: Query) {
    && (if q.includeHidden then row.status != Deleted else row.status == Active)
    && Admits(q.category, row.category)
    && Admits(q.algorithm, row.triple.algorithm)
    && (q.consumer.None? || q.consumer.value == row.consumer)
  }

  function Wanted(rows: map<int, Row>, q: Query): set<int> {
    set id | id in rows && Listable(rows[id], q)
  }

  function NewestFirst(rows: map<int, Row>): map<int, int> {
    map id | id in rows :: -id
  }

  function Slice<T>(s: seq<T>, limit: nat, offset: nat): seq<T> {
    if offset >= |s| then [] else Take(s[offset..], limit)
  }

  function Browse(rows: map<int, Row>, q: Query, limit: nat, offset: nat): seq<int> {
    Slice(Ordered(Wanted(rows, q), NewestFirst(rows)), limit, offset)
  }

  /** A page holds listable rows only, the newest first, and no more than were asked for. */
  lemma SliceIsNewestFirst(rows: map<int, Row>, q: Query, ordered: seq<int>, limit: nat, offset: nat)
    requires Lists(ordered, Wanted(rows, q), NewestFirst(rows))
    ensures var ids := Slice(ordered, limit, offset);
            && |ids| <= limit
            && (forall k :: 0 <= k < |ids| ==> ids[k] in rows && Listable(rows[ids[k]], q))
            && (forall a, b :: 0 <= a < b < |ids| ==> ids[a] > ids[b])
  {
    var key, ids := NewestFirst(rows), Slice(ordered, limit, offset);
    forall k | 0 <= k < |ids| ensures ids[k] == ordered[offset + k] && ids[k] in Wanted(rows, q) {
    }
    forall a, b | 0 <= a < b < |ids| ensures ids[a] > ids[b] {
      assert key[ordered[offset + a]] < key[ordered[offset + b]];
    }
  }

  // ---- position in the list ----

  /** How many listed rows come before `x`. */
  function Rank(ids: set<int>, x: int): nat {
    |set i | i in ids && i > x|
  }

  lemma {:induction false} PrefixSize(listed: seq<int>, ids: set<int>, key: map<int, int>, k: nat)
    requires Lists(listed, ids, key) && k <= |listed|
    ensures |set n | 0 <= n < k :: listed[n]| == k
  {
    if k == 0 {
    } else {
      PrefixSize(listed, ids, key, k - 1);
      var last := listed[k - 1];
      assert (set n | 0 <= n < k :: listed[n]) == (set n | 0 <= n < k - 1 :: listed[n]) + {last};
      forall n | 0 <= n < k - 1 ensures listed[n] != last {
        assert key[listed[n]] < key[listed[k - 1]];
      }
    }
  }

  lemma RankIsPosition(listed: seq<int>, ids: set<int>, key: map<int, int>, k: nat)
    requires Lists(listed, ids, key) && k < |listed|
    requires forall i :: i in key ==> key[i] == -i
    ensures Rank(ids, listed[k]) == k
  {
    var before := set n | 0 <= n < k :: listed[n];
    var greater := set i | i in ids && i > listed[k];
    forall n | 0 <= n < |listed| ensures listed[n] in greater <==> n < k {
      assert n < k ==> key[listed[n]] < key[listed[k]];
      assert n > k ==> key[listed[k]] < key[listed[n]];
    }
    forall i ensures i in greater <==> i in before {
      if i in greater {
        var n :| 0 <= n < |listed| && listed[n] == i;
      }
    }
    assert greater == before;
    PrefixSize(listed, ids, key, k);
  }

  lemma FoundAtRank(listed: seq<int>, ids: set<int>, key: map<int, int>, x: int)
    requires Lists(listed, ids, key) && x in ids
    requires forall i :: i in key ==> key[i] == -i
    ensures Rank(ids, x) < |listed| && listed[Rank(ids, x)] == x
  {
    var k :| 0 <= k < |listed| && listed[k] == x;
    RankIsPosition(listed, ids, key, k);
  }

  lemma SliceHas(listed: seq<int>, limit: nat, offset: nat, k: nat)
    requires offset <= k < offset + limit && k < |listed|
    ensures listed[k] in Slice(listed, limit, offset)
  {
    assert Slice(listed, limit, offset)[k - offset] == listed[k];
  }

  lemma ShortSliceIsLast(listed: seq<int>, limit: nat, offset: nat)
    requires |Slice(listed, limit, offset)| < limit
    ensures |listed| < offset + limit
  {
  }

  /** A row is on the page of its rank. */
  lemma OnPageOfRank(rows: map<int, Row>, q: Query, limit: nat, offset: nat, x: int)
    requires x in Wanted(rows, q) && offset <= Rank(Wanted(rows, q), x) < offset + limit
    ensures x in Browse(rows, q, limit, offset)
  {
    var ids, listed := Wanted(rows, q), Ordered(Wanted(rows, q), NewestFirst(rows));
    FoundAtRank(listed, ids, NewestFirst(rows), x);
    SliceHas(listed, limit, offset, Rank(ids, x));
  }

  lemma ShortPageCoversRank(rows: map<int, Row>, q: Query, limit: nat, offset: nat, x: int)
    requires x in Wanted(rows, q) && |Browse(rows, q, limit, offset)| < limit
    ensures Rank(Wanted(rows, q), x) < offset + limit
  {
    var ids, listed := Wanted(rows, q), Ordered(Wanted(rows, q), NewestFirst(rows));
    ShortSliceIsLast(listed, limit, offset);
    FoundAtRank(listed, ids, NewestFirst(rows), x);
  }

  /** What a page has at k is the row with offset + k newer ones, and a short page ends the list. */
  lemma BrowseRanks(rows: map<int, Row>, q: Query, limit: nat, offset: nat)
    ensures var ids, all := Browse(rows, q, limit, offset), Wanted(rows, q);
            && |ids| <= limit && (|ids| < limit ==> |all| <= offset + |ids|)
            && forall k :: 0 <= k < |ids| ==> ids[k] in all && Rank(all, ids[k]) == offset + k
  {
    SliceRanks(rows, q, limit, offset, Ordered(Wanted(rows, q), NewestFirst(rows)));
  }

  lemma SliceRanks(rows: map<int, Row>, q: Query, limit: nat, offset: nat, listed: seq<int>)
    requires Lists(listed, Wanted(rows, q), NewestFirst(rows))
    ensures var ids, all := Slice(listed, limit, offset), Wanted(rows, q);
            && |ids| <= limit && (|ids| < limit ==> |all| <= offset + |ids|)
            && forall k :: 0 <= k < |ids| ==> ids[k] in all && Rank(all, ids[k]) == offset + k
  {
    var ids, all := Slice(listed, limit, offset), Wanted(rows, q);
    forall k | 0 <= k < |ids| ensures ids[k] in all && Rank(all, ids[k]) == offset + k {
      RankIsPosition(listed, all, NewestFirst(rows), offset + k);
    }
    PrefixSize(listed, all, NewestFirst(rows), |listed|);
    assert (set n | 0 <= n < |listed| :: listed[n]) == all;
  }

  lemma RankGrows(a: set<int>, b: set<int>, x: int)
    requires a <= b
    ensures Rank(a, x) <= Rank(b, x)
  {
    var small, big := set i | i in a && i > x, set i | i in b && i > x;
    assert big == small + (big - small);
  }

  // ---- changes that only add to the list ----

  /** Anything but a deletion and a flag that hides. */
  ghost predicate Gentle(db: Db, op: Op, threshold: nat) {
    && !op.Delete?
    && (op.PlaceFlag? && Live(db, op.id) && db.rows[op.id].status == Active ==>
          Apply(db, op, threshold).rows[op.id].status == Active)
  }

  lemma GentleKeepsListed(db: Db, op: Op, q: Query, threshold: nat)
    requires Valid(db, threshold) && Gentle(db, op, threshold)
    ensures Wanted(db.rows, q) <= Wanted(Apply(db, op, threshold).rows, q)
  {
    StepHasShape(db, op, threshold);
    forall id | id in Wanted(db.rows, q) ensures id in Wanted(Apply(db, op, threshold).rows, q) {
      StatusChanges(db, op, id, threshold);
      if db.rows[id].triple != Apply(db, op, threshold).rows[id].triple {
        TripleChangesOnRevival(db, op, id, threshold);
      }
    }
  }

  ghost predicate GentleRun(db: Db, ops: seq<Op>, db': Db, threshold: nat)
    decreases |ops|
  {
    if ops == [] then db == db'
    else Gentle(db, ops[0], threshold) && GentleRun(Apply(db, ops[0], threshold), ops[1..], db', threshold)
  }

  lemma {:induction false} GentleRunKeepsListed(db: Db, ops: seq<Op>, db': Db, q: Query, threshold: nat)
    requires Valid(db, threshold) && threshold >= 1 && GentleRun(db, ops, db', threshold)
    ensures Wanted(db.rows, q) <= Wanted(db'.rows, q) && Valid(db', threshold)
    decreases |ops|
  {
    if ops == [] {
    } else {
      GentleKeepsListed(db, ops[0], q, threshold);
      StepKeepsValid(db, ops[0], threshold);
      GentleRunKeepsListed(Apply(db, ops[0], threshold), ops[1..], db', q, threshold);
    }
  }

  // ---- paging to a short page ----

  /** The states in which successive pages are read, with gentle transactions in between. */
  ghost predicate Session(dbs: seq<Db>, runs: seq<seq<Op>>, threshold: nat) {
    && |dbs| == |runs| + 1 && threshold >= 1 && Valid(dbs[0], threshold)
    && forall k {:trigger runs[k]} :: 0 <= k < |runs| ==> GentleRun(dbs[k], runs[k], dbs[k + 1], threshold)
  }

  lemma {:induction false} SessionGrows(dbs: seq<Db>, runs: seq<seq<Op>>, threshold: nat, q: Query, k: nat)
    requires Session(dbs, runs, threshold) && k < |dbs|
    ensures Valid(dbs[k], threshold) && Wanted(dbs[0].rows, q) <= Wanted(dbs[k].rows, q)
    ensures k > 0 ==> Wanted(dbs[k - 1].rows, q) <= Wanted(dbs[k].rows, q)
  {
    if k == 0 {
    } else {
      SessionGrows(dbs, runs, threshold, q, k - 1);
      GentleRunKeepsListed(dbs[k - 1], runs[k - 1], dbs[k], q, threshold);
    }
  }

  /** `x` is shown on the j-th page, read when its turn comes. */
  ghost predicate Shown(dbs: seq<Db>, q: Query, limit: nat, x: int, j: nat) {
    j < |dbs| && x in Browse(dbs[j].rows, q, limit, j * limit)
  }

  lemma {:induction false} OnSomePageUpTo(dbs: seq<Db>, runs: seq<seq<Op>>, threshold: nat, q: Query, limit: nat,
      x: int, k: nat)
    requires Session(dbs, runs, threshold) && k < |dbs|
    requires x in Wanted(dbs[0].rows, q) && Rank(Wanted(dbs[k].rows, q), x) < k * limit + limit
    ensures exists j: nat :: Shown(dbs, q, limit, x, j)
  {
    SessionGrows(dbs, runs, threshold, q, k);
    if Rank(Wanted(dbs[k].rows, q), x) >= k * limit {
      OnPageOfRank(dbs[k].rows, q, limit, k * limit, x);
      assert Shown(dbs, q, limit, x, k);
    } else {
      assert k > 0 && (k - 1) * limit + limit == k * limit;
      RankGrows(Wanted(dbs[k - 1].rows, q), Wanted(dbs[k].rows, q), x);
      OnSomePageUpTo(dbs, runs, threshold, q, limit, x, k - 1);
    }
  }

  /**
   Reading page after page until one is short shows every row that was listed at the start, although
   contributions, resurrections, hits, sub-threshold flags and retention go on between the pages.
   */
  lemma PagingSkipsNothing(dbs: seq<Db>, runs: seq<seq<Op>>, threshold: nat, q: Query, limit: nat, x: int)
    requires Session(dbs, runs, threshold) && limit >= 1
    requires x in Wanted(dbs[0].rows, q)
    requires var last := |dbs| - 1; |Browse(dbs[last].rows, q, limit, last * limit)| < limit
    ensures exists j: nat :: Shown(dbs, q, limit, x, j)
  {
    var last := |dbs| - 1;
    SessionGrows(dbs, runs, threshold, q, last);
    ShortPageCoversRank(dbs[last].rows, q, limit, last * limit, x);
    OnSomePageUpTo(dbs, runs, threshold, q, limit, x, last);
  }
}
