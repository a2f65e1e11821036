/** The release integrity checks and the repair steps themselves, as SQL. */
module Integrity {
  import opened Repair
  import opened Schema
  import opened Sql

  /***** The SQL *****/

  /** `NOT EXISTS (SELECT 1 FROM table p WHERE p.key = t.column)` */
  function Orphan(table: TableName, key: ColumnName, column: ColumnName): Cond {
    Not(Exists(table, Eq(P(key), T(column))))
  }

  /** `t.column IS NOT NULL AND NOT EXISTS (...)` */
  function Dangling(table: TableName, column: ColumnName): Cond {
    And(IsNotNull(T(column)), Orphan(table, Id, column))
  }

  /** `t.agency_id IS NULL OR NOT EXISTS (...)` */
  function NoAgency(): Cond {
    Or(IsNull(T(AgencyId)), Orphan(AccountsAgency, Id, AgencyId))
  }

  const SAME_CLIENT := Eq(P(Id), T(ClientId))
  const OTHER_AGENCY := Distinct(T(AgencyId), P(AgencyId))

  /** `REPAIR_STEPS` */
  const STEPS: seq<Step> := [
    Step(AuthSecurityEvents, SetNull(UserId), Dangling(AccountsUser, UserId)),
    Step(AuthSecurityEvents, SetNull(AgencyId), Dangling(AccountsAgency, AgencyId)),
    Step(TaskFailures, Delete, Dangling(AccountsAgency, AgencyId)),
    Step(ImportReviewItem, Delete, Orphan(ImportJob, Id, JobId)),
    Step(ImportReviewGroup, Delete, Orphan(ImportJob, Id, JobId)),
    Step(ImportWorkflowState, Delete, Orphan(ImportJob, Id, JobId)),
    Step(ImportAgencyProfile, Delete, Orphan(AccountsAgency, Id, AgencyId)),
    Step(ImportChunkPhase, Delete, Orphan(ImportChunk, Id, ChunkId)),
    Step(CustomLocations, Delete, NoAgency()),
    Step(DemandeLocations, Delete,
         Or(Or(Or(IsNull(T(AgencyId)), Orphan(Demandes, Id, DemandeId)), Orphan(Locations, LocationId, LocationId)),
            Orphan(AccountsAgency, Id, AgencyId))),
    Step(OfferLocations, Delete,
         Or(Or(Or(IsNull(T(AgencyId)), Orphan(Offers, Id, OfferId)), Orphan(Locations, LocationId, LocationId)),
            Orphan(AccountsAgency, Id, AgencyId))),
    Step(MatchCountsCache, Delete,
         Or(Or(Or(IsNull(T(AgencyId)), Orphan(Clients, Id, ClientId)), Orphan(AccountsAgency, Id, AgencyId)),
            Exists(Clients, And(SAME_CLIENT, OTHER_AGENCY)))),
    Step(SurfaceCacheGeneration, Delete, Dangling(AccountsAgency, AgencyId))
  ]

  /** `CHECKS` */
  const CHECKS: seq<Check> := [
    Filter(AuthSecurityEvents, Dangling(AccountsUser, UserId)),
    Filter(AuthSecurityEvents, Dangling(AccountsAgency, AgencyId)),
    Filter(TaskFailures, Dangling(AccountsAgency, AgencyId)),
    Filter(DemandeLocations, Orphan(Demandes, Id, DemandeId)),
    Filter(DemandeLocations, Orphan(Locations, LocationId, LocationId)),
    Filter(DemandeLocations, NoAgency()),
    Filter(OfferLocations, Orphan(Offers, Id, OfferId)),
    Filter(OfferLocations, Orphan(Locations, LocationId, LocationId)),
    Filter(OfferLocations, NoAgency()),
    Filter(MatchCountsCache, Orphan(Clients, Id, ClientId)),
    Filter(MatchCountsCache, NoAgency()),
    Join(MatchCountsCache, Clients, SAME_CLIENT, OTHER_AGENCY),
    Filter(SurfaceCacheGeneration, Dangling(AccountsAgency, AgencyId)),
    Filter(ImportWorkflowState, Orphan(ImportJob, Id, JobId)),
    Filter(ImportReviewGroup, Orphan(ImportJob, Id, JobId)),
    Filter(ImportReviewItem, Orphan(ImportJob, Id, JobId)),
    Filter(ImportAgencyProfile, Orphan(AccountsAgency, Id, AgencyId)),
    Filter(ImportChunkPhase, Orphan(ImportChunk, Id, ChunkId)),
    Filter(CustomLocations, NoAgency())
  ]

  const PARENTS := {AccountsUser, AccountsAgency, ImportJob, ImportChunk, Demandes, Locations, Offers, Clients}

  function ClearedBy(i: nat): ColumnName {
    if i == 0 then UserId else AgencyId
  }

  /** The condition looks into these tables only. */
  predicate Within(cond: Cond, tables: set<TableName>) {
    match cond
    case And(c, d) => Within(c, tables) && Within(d, tables)
    case Or(c, d) => Within(c, tables) && Within(d, tables)
    case Not(c) => Within(c, tables)
    case Exists(table, where) => table in tables && Within(where, tables)
    case _ => true
  }

  lemma {:induction false} WithinSources(cond: Cond, tables: set<TableName>)
    requires Within(cond, tables)
    ensures Sources(cond) <= tables
  {
    match cond
    case And(c, d) =>
      WithinSources(c, tables);
      WithinSources(d, tables);
    case Or(c, d) =>
      WithinSources(c, tables);
      WithinSources(d, tables);
    case Not(c) =>
      WithinSources(c, tables);
    case Exists(_, where) =>
      WithinSources(where, tables);
    case _ =>
  }

  lemma StepSources(i: nat)
    requires i < |STEPS|
    ensures Sources(STEPS[i].cond) <= PARENTS
  {
    hide Sources;
    assert Within(STEPS[i].cond, PARENTS) by {
      if i == 0 {} else if i == 1 {} else if i == 2 {} else if i == 3 {} else if i == 4 {} else if i == 5 {}
      else if i == 6 {} else if i == 7 {} else if i == 8 {} else if i == 9 {} else if i == 10 {} else if i == 11 {} else {}
    }
    WithinSources(STEPS[i].cond, PARENTS);
  }

  lemma StepTarget(i: nat)
    requires i < |STEPS|
    ensures STEPS[i].table !in PARENTS + {StorageObjects, OfferPhotos}
    ensures STEPS[i].table == AuthSecurityEvents <==> i < 2
    ensures STEPS[i].action == if i < 2 then SetNull(ClearedBy(i)) else Delete
  {
    hide Orphan, Dangling, NoAgency;
    if i == 0 {} else if i == 1 {} else if i == 2 {} else if i == 3 {} else if i == 4 {} else if i == 5 {}
    else if i == 6 {} else if i == 7 {} else if i == 8 {} else if i == 9 {} else if i == 10 {} else if i == 11 {} else {}
  }

  lemma ClearingStep(i: nat)
    requires i < 2
    ensures i < |STEPS| && Columns(STEPS[i].cond) == {ClearedBy(i)}
    ensures STEPS[i].cond.And? && STEPS[i].cond.c == IsNotNull(T(ClearedBy(i)))
  {
    hide NoAgency;
    if i == 0 {} else {}
  }

  /** What the order and the repetition of steps depend on. */
  lemma StepFacts(i: nat)
    requires i < |STEPS|
    ensures Sources(STEPS[i].cond) <= PARENTS && STEPS[i].table !in PARENTS
    ensures STEPS[i].table == AuthSecurityEvents <==> i < 2
    ensures STEPS[i].action.SetNull? <==> i < 2
    ensures i < 2 ==> STEPS[i].action == SetNull(ClearedBy(i)) && Columns(STEPS[i].cond) == {ClearedBy(i)} &&
                      STEPS[i].cond.And? && STEPS[i].cond.c == IsNotNull(T(ClearedBy(i)))
  {
    hide STEPS, Sources, Columns;
    StepSources(i);
    StepTarget(i);
    if i < 2 {
      ClearingStep(i);
    }
  }

  lemma StepsIndependent()
    ensures Independent(StepSet(STEPS))
  {
    hide STEPS, Sources, Columns;
    forall s | s in StepSet(STEPS)
      ensures Sources(s.cond) <= PARENTS && s.table !in PARENTS
      ensures s.action.SetNull? || s.table == AuthSecurityEvents ==>
                exists i | 0 <= i < 2 :: i < |STEPS| && s == STEPS[i] && s.action == SetNull(ClearedBy(i)) &&
                                         Columns(s.cond) == {ClearedBy(i)}
      ensures s.action.SetNull? ==> s.table == AuthSecurityEvents && s.cond.And? && s.cond.c == IsNotNull(T(s.action.column))
    {
      var i :| 0 <= i < |STEPS| && STEPS[i] == s;
      StepFacts(i);
    }
  }

  /** The step that answers a check. */
  lemma CheckFacts(j: nat) returns (i: nat)
    requires j < |CHECKS|
    ensures i < |STEPS|
    ensures STEPS[i].table == CHECKS[j].table
    ensures Disjuncts(Objection(CHECKS[j])) <= Disjuncts(STEPS[i].cond)
  {
    if j < 3 { i := j; } else if j < 6 { i := 9; } else if j < 9 { i := 10; } else if j < 12 { i := 11; }
    else if j == 12 { i := 12; } else if j == 13 { i := 5; } else if j == 14 { i := 4; } else if j == 15 { i := 3; }
    else if j == 16 { i := 6; } else if j == 17 { i := 7; } else { i := 8; }
  }

  /** A check that raises one disjunct of a step, by position. */
  lemma StepDisjunct(i: nat, d: Cond) returns (j: nat)
    requires i < |STEPS| && d in Disjuncts(STEPS[i].cond)
    ensures j < |CHECKS| && CHECKS[j].table == STEPS[i].table && d in Disjuncts(Objection(CHECKS[j]))
  {
    if i < 3 { j := i; }
    else if i == 3 { j := 15; } else if i == 4 { j := 14; } else if i == 5 { j := 13; }
    else if i == 6 { j := 16; } else if i == 7 { j := 17; } else if i == 8 { j := 18; }
    else if i == 9 { j := if d == Orphan(Demandes, Id, DemandeId) then 3 else if d == Orphan(Locations, LocationId, LocationId) then 4 else 5; }
    else if i == 10 { j := if d == Orphan(Offers, Id, OfferId) then 6 else if d == Orphan(Locations, LocationId, LocationId) then 7 else 8; }
    else if i == 11 { j := if d == Orphan(Clients, Id, ClientId) then 9 else if d.Exists? then 11 else 10; }
    else { j := 12; }
  }

  lemma StepsAligned()
    ensures Aligned(StepSet(STEPS), (set c | c in CHECKS))
  {
    hide STEPS, CHECKS, Disjuncts, Objection;
    forall c | c in CHECKS
      ensures exists s | s in StepSet(STEPS) :: s.table == c.table && Disjuncts(Objection(c)) <= Disjuncts(s.cond)
    {
      var j :| 0 <= j < |CHECKS| && CHECKS[j] == c;
      var i := CheckFacts(j);
      assert STEPS[i] in StepSet(STEPS);
    }
    forall s, d | s in StepSet(STEPS) && d in Disjuncts(s.cond)
      ensures exists c | c in CHECKS :: c.table == s.table && d in Disjuncts(Objection(c))
    {
      var i :| 0 <= i < |STEPS| && STEPS[i] == s;
      var j := StepDisjunct(i, d);
      assert CHECKS[j] in CHECKS;
    }
  }

  /** `REPAIR_STEPS` in any other order end in the same database. */
  lemma StepsAnyOrder(other: seq<Step>, db: Database)
    requires multiset(other) == multiset(STEPS)
    ensures RunSteps(other, db) == RunSteps(STEPS, db)
  {
    hide STEPS;
    StepsIndependent();
    AnyOrder(STEPS, other, db);
  }

  /** A second repair run changes nothing, and every step of it reports zero rows. */
  lemma StepsSecondRun(db: Database, k: nat)
    requires k < |STEPS|
    ensures RunSteps(STEPS, RunSteps(STEPS, db)) == RunSteps(STEPS, db)
    ensures RowCount(STEPS[k], RunSteps(STEPS[..k], RunSteps(STEPS, db))) == 0
  {
    hide STEPS;
    StepsIndependent();
    SecondRunIdle(STEPS, db, k);
  }

  /** Outside `auth_security_events`, a row is deleted exactly when some check on its table flags it, and is otherwise kept as it is. */
  lemma FlaggedIsDeleted(db: Database, table: TableName, row: Row)
    requires table != AuthSecurityEvents
    ensures Doomed(StepSet(STEPS), db, table, row) <==> exists c | c in CHECKS :: c.table == table && Flags(c, db, row)
    ensures Mended(StepSet(STEPS), db, table, row) == row
  {
    hide STEPS, CHECKS, Flags, Doomed, Mended, Sources, Columns;
    StepsAligned();
    forall s | s in StepSet(STEPS) && s.table == table
      ensures s.action.Delete?
    {
      var i :| 0 <= i < |STEPS| && STEPS[i] == s;
      StepFacts(i);
    }
    Minimal(StepSet(STEPS), (set c | c in CHECKS), db, table, row);
  }

  /** The position of the step for a table that has just one. */
  function Rank(table: TableName): nat {
    match table
    case TaskFailures => 2
    case ImportReviewItem => 3
    case ImportReviewGroup => 4
    case ImportWorkflowState => 5
    case ImportAgencyProfile => 6
    case ImportChunkPhase => 7
    case CustomLocations => 8
    case DemandeLocations => 9
    case OfferLocations => 10
    case MatchCountsCache => 11
    case SurfaceCacheGeneration => 12
    case _ => 0
  }

  lemma StepRank(i: nat)
    requires i < |STEPS|
    ensures Rank(STEPS[i].table) == if i < 2 then 0 else i
  {
    if i == 0 {} else if i == 1 {} else if i == 2 {} else if i == 3 {} else if i == 4 {} else if i == 5 {}
    else if i == 6 {} else if i == 7 {} else if i == 8 {} else if i == 9 {} else if i == 10 {} else if i == 11 {} else {}
  }

  lemma {:induction false} RunsConserve(db: Database, k: nat, n: nat)
    requires k < |STEPS| && n <= |STEPS|
    ensures |Table(RunSteps(STEPS[..n], db), STEPS[k].table)| ==
            |Table(db, STEPS[k].table)| - if 2 <= k < n then RowCount(STEPS[k], RunSteps(STEPS[..k], db)) else 0
  {
    hide STEPS, RunSteps, ApplyStep, RowCount, Rank, Sources, Columns;
    if n == 0 {
      RunNone(STEPS, db);
    } else {
      RunsConserve(db, k, n - 1);
      RunNext(STEPS, n - 1, db);
      StepConserves(STEPS[n - 1], RunSteps(STEPS[..n - 1], db), STEPS[k].table);
      StepFacts(n - 1);
      StepFacts(k);
      StepRank(n - 1);
      StepRank(k);
    }
  }

  /** Conservation over a whole run: each repaired table loses exactly the rows its DELETE reports, `auth_security_events` none. */
  lemma RunConserves(db: Database, k: nat)
    requires k < |STEPS|
    ensures |Table(RunSteps(STEPS, db), STEPS[k].table)| ==
            |Table(db, STEPS[k].table)| - if 2 <= k then RowCount(STEPS[k], RunSteps(STEPS[..k], db)) else 0
  {
    hide STEPS, RunSteps, ApplyStep, RowCount;
    RunsConserve(db, k, |STEPS|);
    assert STEPS[..|STEPS|] == STEPS;
  }
}
