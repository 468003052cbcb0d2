/**
 Who can take a row away from everybody.

 Deleting is a check in one transaction and a soft delete in another, with anything in between.
 Hiding takes flags from distinct consumers.  The histories kept here (requests that passed the check, and who has
 flagged a row since it last became active) are independent of the tables.
 */
module Trust {
  import opened Schema
  import opened Steps
  import opened Invariants

  datatype Scope = Read | Write | Admin

  datatype Caller = Caller(id: int, scopes: set<Scope>)

  datatype Approval = Approval(caller: Caller, id: int)

  datatype Verdict = Allowed | Forbidden | NotFound

  datatype Sys = Sys(db: Db, approved: map<int, Approval>, flaggedBy: map<int, set<int>>)

  /** The store's transactions other than deletion, and the two halves of a delete request. */
  datatype Event =
    | Store(op: Op)
    | Check(request: int, caller: Caller, id: int)
    | Finish(request: int, now: int)

  /** The endpoint's answer, from the scope check and the row it reads. */
  function Judge(db: Db, caller: Caller, id: int): Verdict {
    if Write !in caller.scopes then Forbidden
    else if !Live(db, id) then NotFound
    else if db.rows[id].consumer == caller.id || Admin in caller.scopes then Allowed
    else Forbidden
  }

  ghost predicate Enabled(s: Sys, e: Event) {
    match e
    case Store(op) => !op.Delete?
    case Check(request, _, _) => request !in s.approved
    case Finish(request, _) => request in s.approved
  }

  /** Distinct consumers that have flagged each row since it was created or last resurrected. */
  ghost function FlaggedAfter(s: Sys, op: Op, db': Db): map<int, set<int>> {
    map id | id in db'.rows ::
      if Activated(s.db, db', id) || id !in s.flaggedBy then {}
      else if op.PlaceFlag? && op.id == id && Live(s.db, id) then s.flaggedBy[id] + {op.consumer}
      else s.flaggedBy[id]
  }

  ghost function Next(s: Sys, e: Event, threshold: nat): Sys
    requires Enabled(s, e)
  {
    match e
    case Store(op) =>
      var db' := Apply(s.db, op, threshold);
      s.(db := db', flaggedBy := FlaggedAfter(s, op, db'))
    case Check(request, caller, id) =>
      if Judge(s.db, caller, id).Allowed? then s.(approved := s.approved[request := Approval(caller, id)]) else s
    case Finish(request, now) =>
      s.(db := SoftDeleted(s.db, s.approved[request].id, now), approved := s.approved - {request})
  }

  predicate Entitled(caller: Caller, row: Row) {
    Write in caller.scopes && (Admin in caller.scopes || row.consumer == caller.id)
  }

  ghost predicate SysInv(s: Sys, threshold: nat) {
    && threshold >= 1
    && Valid(s.db, threshold)
    && (forall r :: r in s.approved ==>
          && s.approved[r].id < s.db.nextId
          && (s.approved[r].id in s.db.rows ==> Entitled(s.approved[r].caller, s.db.rows[s.approved[r].id])))
    && (forall id :: id in s.db.rows ==> id in s.flaggedBy && s.flaggedBy[id] == Flaggers(s.db.flags, id))
  }

  lemma StoreKeepsInv(s: Sys, op: Op, threshold: nat)
    requires SysInv(s, threshold) && Enabled(s, Store(op))
    ensures SysInv(Next(s, Store(op), threshold), threshold)
  {
    var s' := Next(s, Store(op), threshold);
    StepKeepsValid(s.db, op, threshold);
    StepHasShape(s.db, op, threshold);
    forall id | id in s'.db.rows ensures id in s'.flaggedBy && s'.flaggedBy[id] == Flaggers(s'.db.flags, id) {
      StepFlaggers(s.db, op, id, threshold);
    }
  }

  lemma NextKeepsInv(s: Sys, e: Event, threshold: nat)
    requires SysInv(s, threshold) && Enabled(s, e)
    ensures SysInv(Next(s, e, threshold), threshold)
  {
    match e
    case Store(op) => StoreKeepsInv(s, op, threshold);
    case Check(_, _, _) =>
    case Finish(request, now) => StepKeepsValid(s.db, Delete(s.approved[request].id, now), threshold);
  }

  ghost predicate Reaches(s: Sys, events: seq<Event>, s': Sys, threshold: nat)
    decreases |events|
  {
    if events == [] then s == s'
    else Enabled(s, events[0]) && Reaches(Next(s, events[0], threshold), events[1..], s', threshold)
  }

  const START := Sys(EMPTY_DB, map[], map[])

  lemma {:induction false} RunKeepsInv(s: Sys, events: seq<Event>, s': Sys, threshold: nat)
    requires SysInv(s, threshold) && Reaches(s, events, s', threshold)
    ensures SysInv(s', threshold)
    decreases |events|
  {
    if events == [] {
    } else {
      NextKeepsInv(s, events[0], threshold);
      RunKeepsInv(Next(s, events[0], threshold), events[1..], s', threshold);
    }
  }

  lemma StepDeletes(s: Sys, e: Event, id: int, threshold: nat)
    requires SysInv(s, threshold) && Enabled(s, e)
    requires Live(s.db, id) && id in Next(s, e, threshold).db.rows && !Live(Next(s, e, threshold).db, id)
    ensures e.Finish? && s.approved[e.request].id == id && Entitled(s.approved[e.request].caller, s.db.rows[id])
  {
    if e.Store? {
      StatusChanges(s.db, e.op, id, threshold);
    }
  }

  /**
   In every run, a row becomes deleted only by the request of its owner or of a caller holding write and admin,
   however long ago the check was made and whatever happened to the row since.
   */
  lemma OnlyOwnerOrAdminDeletes(events: seq<Event>, s: Sys, e: Event, id: int, threshold: nat)
    requires threshold >= 1 && Reaches(START, events, s, threshold) && Enabled(s, e)
    requires Live(s.db, id) && id in Next(s, e, threshold).db.rows && !Live(Next(s, e, threshold).db, id)
    ensures e.Finish? && s.approved[e.request].id == id && Entitled(s.approved[e.request].caller, s.db.rows[id])
  {
    RunKeepsInv(START, events, s, threshold);
    StepDeletes(s, e, id, threshold);
  }

  ghost predicate IsHidden(db: Db, id: int) {
    id in db.rows && db.rows[id].status == Hidden
  }

  lemma AddingMember(s: set<int>, x: int)
    ensures x !in s || s + {x} == s
  {
  }

  lemma StepHides(s: Sys, e: Event, id: int, threshold: nat)
    requires SysInv(s, threshold) && Enabled(s, e)
    requires IsHidden(Next(s, e, threshold).db, id) && !IsHidden(s.db, id)
    ensures e.Store? && e.op.PlaceFlag? && e.op.id == id && id in s.flaggedBy
    ensures e.op.consumer !in s.flaggedBy[id] && |s.flaggedBy[id]| < threshold
    ensures var flaggers := s.flaggedBy[id] + {e.op.consumer};
            id in Next(s, e, threshold).flaggedBy && Next(s, e, threshold).flaggedBy[id] == flaggers &&
              |flaggers| >= threshold
  {
    NextKeepsInv(s, e, threshold);
    if e.Store? {
      StatusChanges(s.db, e.op, id, threshold);
      StepFlaggers(s.db, e.op, id, threshold);
      AddingMember(s.flaggedBy[id], e.op.consumer);
    }
  }

  /**
   In every run, a row becomes hidden exactly by the flag that brings the consumers flagging it since its latest
   activation to the threshold.
   */
  lemma OnlyThresholdHides(events: seq<Event>, s: Sys, e: Event, id: int, threshold: nat)
    requires threshold >= 1 && Reaches(START, events, s, threshold) && Enabled(s, e)
    requires IsHidden(Next(s, e, threshold).db, id) && !IsHidden(s.db, id)
    ensures e.Store? && e.op.PlaceFlag? && e.op.id == id && id in s.flaggedBy
    ensures e.op.consumer !in s.flaggedBy[id] && |s.flaggedBy[id]| < threshold
    ensures var flaggers := s.flaggedBy[id] + {e.op.consumer};
            id in Next(s, e, threshold).flaggedBy && Next(s, e, threshold).flaggedBy[id] == flaggers &&
              |flaggers| >= threshold
  {
    RunKeepsInv(START, events, s, threshold);
    StepHides(s, e, id, threshold);
  }

  lemma FlagHidesAtThreshold(db: Db, id: int, consumer: int, flag: FlagRow, threshold: nat)
    requires id in db.rows && db.rows[id].status == Active
    ensures IsHidden(Flagged(db, id, consumer, flag, threshold), id) <==>
      |Flaggers(db.flags, id) + {consumer}| >= threshold
  {
    FlagAddsFlagger(db.flags, id, consumer, flag);
  }

  lemma StepHidesIff(s: Sys, e: Event, id: int, threshold: nat)
    requires SysInv(s, threshold) && Enabled(s, e)
    requires e.Store? && e.op.PlaceFlag? && e.op.id == id && id in s.db.rows && s.db.rows[id].status == Active
    ensures IsHidden(Next(s, e, threshold).db, id) <==> |s.flaggedBy[id] + {e.op.consumer}| >= threshold
  {
    FlagHidesAtThreshold(s.db, id, e.op.consumer, FlagRow(e.op.reason, e.op.now), threshold);
  }

  lemma StepHidesOnlyActive(s: Sys, e: Event, id: int, threshold: nat)
    requires SysInv(s, threshold) && Enabled(s, e)
    requires IsHidden(Next(s, e, threshold).db, id) && !IsHidden(s.db, id)
    ensures e.Store? && e.op.PlaceFlag? && e.op.id == id && id in s.db.rows && s.db.rows[id].status == Active
  {
    StepHides(s, e, id, threshold);
    StatusChanges(s.db, e.op, id, threshold);
  }

  /** And it does become hidden by every such flag. */
  lemma HidesExactlyAtThreshold(events: seq<Event>, s: Sys, e: Event, id: int, threshold: nat)
    requires threshold >= 1 && Reaches(START, events, s, threshold) && Enabled(s, e)
    ensures IsHidden(Next(s, e, threshold).db, id) && !IsHidden(s.db, id) <==>
            && e.Store? && e.op.PlaceFlag? && e.op.id == id
            && id in s.db.rows && s.db.rows[id].status == Active
            && id in s.flaggedBy && |s.flaggedBy[id] + {e.op.consumer}| >= threshold
  {
    RunKeepsInv(START, events, s, threshold);
    if IsHidden(Next(s, e, threshold).db, id) && !IsHidden(s.db, id) {
      StepHidesOnlyActive(s, e, id, threshold);
      StepHidesIff(s, e, id, threshold);
    } else if e.Store? && e.op.PlaceFlag? && e.op.id == id && id in s.db.rows && s.db.rows[id].status == Active {
      StepHidesIff(s, e, id, threshold);
    }
  }

  /**
   A request passes the check exactly if its caller holds write, the row is there, and the caller owns it or is admin.
   */
  lemma ApprovedIff(s: Sys, request: int, caller: Caller, id: int, threshold: nat)
    requires Enabled(s, Check(request, caller, id))
    ensures var s' := Next(s, Check(request, caller, id), threshold);
            && s'.db == s.db
            && (request in s'.approved <==>
                  && Write in caller.scopes && id in s.db.rows && s.db.rows[id].status != Deleted
                  && (s.db.rows[id].consumer == caller.id || Admin in caller.scopes))
            && (request in s'.approved ==> s'.approved[request] == Approval(caller, id))
  {
  }

  /** A request that passed the check takes its row away when it is finished, unless that has already happened. */
  lemma FinishDeletes(s: Sys, request: int, now: int, threshold: nat)
    requires Enabled(s, Finish(request, now))
    ensures var s', id := Next(s, Finish(request, now), threshold), s.approved[request].id;
            && request !in s'.approved
            && (if id in s.db.rows && s.db.rows[id].status != Deleted
                then s'.db.rows ==
                     s.db.rows[id := s.db.rows[id].(status := Deleted, syncSeq := s.db.counter + 1, updatedAt := now)]
                else s'.db == s.db)
  {
  }
}
