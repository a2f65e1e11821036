/**
 * What the integrity checks and the repair steps mean, without SQL: which rows are broken, said with the rows of the other
 * tables alone, and that every check flags and every step takes exactly those.
 */
module Orphans {
  import opened Integrity
  import opened Repair
  import opened Schema
  import opened Sql

  /***** Broken rows *****/

  /** No row of `parent` has this value under `key`; NULL refers to nothing. */
  ghost predicate Unmatched(db: Database, parent: TableName, key: ColumnName, value: Cell) {
    value == Null || forall p | p in Table(db, parent) :: Get(p, key) != value
  }

  /** A value is given, and refers to nothing. */
  ghost predicate Lost(db: Database, parent: TableName, value: Cell) {
    value != Null && forall p | p in Table(db, parent) :: Get(p, Id) != value
  }

  /** The client is there under another agency than the row's. */
  ghost predicate OtherTenant(row: Row, client: Row) {
    Get(client, Id) != Null && Get(client, Id) == Get(row, ClientId) && Get(client, AgencyId) != Get(row, AgencyId)
  }

  /** The rows that have no place in the database. */
  ghost predicate Broken(db: Database, table: TableName, row: Row) {
    match table
    case TaskFailures | SurfaceCacheGeneration => Lost(db, AccountsAgency, Get(row, AgencyId))
    case ImportReviewItem | ImportReviewGroup | ImportWorkflowState => Unmatched(db, ImportJob, Id, Get(row, JobId))
    case ImportAgencyProfile | CustomLocations => Unmatched(db, AccountsAgency, Id, Get(row, AgencyId))
    case ImportChunkPhase => Unmatched(db, ImportChunk, Id, Get(row, ChunkId))
    case DemandeLocations =>
      || Unmatched(db, Demandes, Id, Get(row, DemandeId)) || Unmatched(db, Locations, LocationId, Get(row, LocationId))
      || Unmatched(db, AccountsAgency, Id, Get(row, AgencyId))
    case OfferLocations =>
      || Unmatched(db, Offers, Id, Get(row, OfferId)) || Unmatched(db, Locations, LocationId, Get(row, LocationId))
      || Unmatched(db, AccountsAgency, Id, Get(row, AgencyId))
    case MatchCountsCache =>
      || Unmatched(db, Clients, Id, Get(row, ClientId)) || Unmatched(db, AccountsAgency, Id, Get(row, AgencyId))
      || exists client | client in Table(db, Clients) :: OtherTenant(row, client)
    case _ => false
  }

  /** The columns of a security event that refer to something lost. */
  ghost predicate Stale(db: Database, row: Row, column: ColumnName) {
    || (column == UserId && Lost(db, AccountsUser, Get(row, UserId)))
    || (column == AgencyId && Lost(db, AccountsAgency, Get(row, AgencyId)))
  }

  /** The table of a check, and what is wrong with the rows it counts. */
  ghost function CheckedTable(j: nat): TableName {
    if j < 2 then AuthSecurityEvents else if j == 2 then TaskFailures else if j < 6 then DemandeLocations
    else if j < 9 then OfferLocations else if j < 12 then MatchCountsCache else if j == 12 then SurfaceCacheGeneration
    else if j == 13 then ImportWorkflowState else if j == 14 then ImportReviewGroup else if j == 15 then ImportReviewItem
    else if j == 16 then ImportAgencyProfile else if j == 17 then ImportChunkPhase else CustomLocations
  }

  ghost predicate Objected(j: nat, db: Database, row: Row) {
    if j == 0 then Lost(db, AccountsUser, Get(row, UserId))
    else if j in {1, 2, 12} then Lost(db, AccountsAgency, Get(row, AgencyId))
    else if j == 3 then Unmatched(db, Demandes, Id, Get(row, DemandeId))
    else if j == 6 then Unmatched(db, Offers, Id, Get(row, OfferId))
    else if j in {4, 7} then Unmatched(db, Locations, LocationId, Get(row, LocationId))
    else if j in {5, 8, 10, 16, 18} then Unmatched(db, AccountsAgency, Id, Get(row, AgencyId))
    else if j == 9 then Unmatched(db, Clients, Id, Get(row, ClientId))
    else if j == 11 then exists client | client in Table(db, Clients) :: OtherTenant(row, client)
    else if j == 17 then Unmatched(db, ImportChunk, Id, Get(row, ChunkId))
    else Unmatched(db, ImportJob, Id, Get(row, JobId))
  }

  /** The table of a step, and the rows it takes. */
  ghost function RepairedTable(i: nat): TableName {
    if i < 2 then AuthSecurityEvents else if i == 2 then TaskFailures else if i == 3 then ImportReviewItem
    else if i == 4 then ImportReviewGroup else if i == 5 then ImportWorkflowState else if i == 6 then ImportAgencyProfile
    else if i == 7 then ImportChunkPhase else if i == 8 then CustomLocations else if i == 9 then DemandeLocations
    else if i == 10 then OfferLocations else if i == 11 then MatchCountsCache else SurfaceCacheGeneration
  }

  ghost predicate Taken(i: nat, db: Database, row: Row) {
    if i == 0 then Stale(db, row, UserId) else if i == 1 then Stale(db, row, AgencyId)
    else Broken(db, RepairedTable(i), row)
  }

  /***** The SQL conditions *****/

  lemma OrphanMeaning(table: TableName, key: ColumnName, column: ColumnName, db: Database, row: Row)
    ensures Holds(Orphan(table, key, column), db, row) <==> Unmatched(db, table, key, Get(row, column))
  {
    hide Get, Table;
    var inner := Eq(P(key), T(column));
    forall p
      ensures Eval(inner, db, row, p) == Yes <==> Get(row, column) != Null && Get(p, key) == Get(row, column)
    {
      EqMeaning(key, column, db, row, p);
    }
    ExistsMeaning(table, inner, db, row);
    assert Orphan(table, key, column) == Not(Exists(table, inner));
  }

  lemma EqMeaning(key: ColumnName, column: ColumnName, db: Database, row: Row, p: Row)
    ensures Eval(Eq(P(key), T(column)), db, row, p) == Yes <==> Get(row, column) != Null && Get(p, key) == Get(row, column)
  {
  }

  lemma ExistsMeaning(table: TableName, inner: Cond, db: Database, row: Row)
    ensures Eval(Exists(table, inner), db, row, map[]) == Truth(exists p | p in Table(db, table) :: Eval(inner, db, row, p) == Yes)
    ensures Eval(Not(Exists(table, inner)), db, row, map[]) ==
            Truth(!exists p | p in Table(db, table) :: Eval(inner, db, row, p) == Yes)
  {
  }

  lemma DanglingMeaning(table: TableName, column: ColumnName, db: Database, row: Row)
    ensures Holds(Dangling(table, column), db, row) <==> Lost(db, table, Get(row, column))
  {
    hide Orphan;
    OrphanMeaning(table, Id, column, db, row);
    assert Eval(IsNotNull(T(column)), db, row, map[]) == Truth(Get(row, column) != Null);
  }

  lemma NoAgencyMeaning(db: Database, row: Row)
    ensures Holds(NoAgency(), db, row) <==> Unmatched(db, AccountsAgency, Id, Get(row, AgencyId))
  {
    hide Orphan;
    OrphanMeaning(AccountsAgency, Id, AgencyId, db, row);
    NullMeaning(AgencyId, db, row);
    OrMeaning(IsNull(T(AgencyId)), Orphan(AccountsAgency, Id, AgencyId), db, row);
  }

  lemma NullMeaning(column: ColumnName, db: Database, row: Row)
    ensures Holds(IsNull(T(column)), db, row) <==> Get(row, column) == Null
  {
  }

  lemma OrMeaning(c: Cond, d: Cond, db: Database, row: Row)
    ensures Holds(Or(c, d), db, row) <==> Holds(c, db, row) || Holds(d, db, row)
  {
  }

  lemma TenantMeaning(db: Database, row: Row, client: Row)
    ensures Eval(And(SAME_CLIENT, OTHER_AGENCY), db, row, client) == Yes <==> OtherTenant(row, client)
  {
    assert Eval(SAME_CLIENT, db, row, client) == Equal3(Get(client, Id), Get(row, ClientId));
    assert Eval(OTHER_AGENCY, db, row, client) == Truth(Get(row, AgencyId) != Get(client, AgencyId));
  }

  lemma MismatchMeaning(db: Database, row: Row)
    ensures Holds(Exists(Clients, And(SAME_CLIENT, OTHER_AGENCY)), db, row) <==>
            exists client | client in Table(db, Clients) :: OtherTenant(row, client)
  {
    hide OtherTenant;
    var inner := And(SAME_CLIENT, OTHER_AGENCY);
    forall client
      ensures Eval(inner, db, row, client) == Yes <==> OtherTenant(row, client)
    {
      TenantMeaning(db, row, client);
    }
    assert Eval(Exists(Clients, inner), db, row, map[]) ==
           Truth(exists client | client in Table(db, Clients) :: Eval(inner, db, row, client) == Yes);
  }

  /** All of them at once. */
  lemma Meanings(db: Database, row: Row)
    ensures forall table, key, column :: Holds(Orphan(table, key, column), db, row) <==> Unmatched(db, table, key, Get(row, column))
    ensures forall table, column :: Holds(Dangling(table, column), db, row) <==> Lost(db, table, Get(row, column))
    ensures Holds(NoAgency(), db, row) <==> Unmatched(db, AccountsAgency, Id, Get(row, AgencyId))
    ensures forall column :: Holds(IsNull(T(column)), db, row) <==> Get(row, column) == Null
    ensures forall c, d :: Holds(Or(c, d), db, row) <==> Holds(c, db, row) || Holds(d, db, row)
    ensures Holds(Exists(Clients, And(SAME_CLIENT, OTHER_AGENCY)), db, row) <==>
            exists client | client in Table(db, Clients) :: OtherTenant(row, client)
  {
    hide Holds, Orphan, Dangling, NoAgency, Unmatched, Lost;
    forall table, key, column
      ensures Holds(Orphan(table, key, column), db, row) <==> Unmatched(db, table, key, Get(row, column))
    {
      OrphanMeaning(table, key, column, db, row);
    }
    forall table, column
      ensures Holds(Dangling(table, column), db, row) <==> Lost(db, table, Get(row, column))
    {
      DanglingMeaning(table, column, db, row);
    }
    forall column
      ensures Holds(IsNull(T(column)), db, row) <==> Get(row, column) == Null
    {
      NullMeaning(column, db, row);
    }
    forall c, d
      ensures Holds(Or(c, d), db, row) <==> Holds(c, db, row) || Holds(d, db, row)
    {
      OrMeaning(c, d, db, row);
    }
    NoAgencyMeaning(db, row);
    MismatchMeaning(db, row);
  }

  lemma EarlyChecks(j: nat, db: Database, row: Row)
    requires j < 6
    ensures |CHECKS| == 19 && CHECKS[j].table == CheckedTable(j)
    ensures Flags(CHECKS[j], db, row) <==> Objected(j, db, row)
  {
    hide Holds, Orphan, Dangling, NoAgency, Unmatched, Lost, OtherTenant;
    Meanings(db, row);
    if j == 0 {} else if j == 1 {} else if j == 2 {} else if j == 3 {} else if j == 4 {} else {}
  }

  lemma MiddleChecks(j: nat, db: Database, row: Row)
    requires 6 <= j < 12
    ensures |CHECKS| == 19 && CHECKS[j].table == CheckedTable(j)
    ensures Flags(CHECKS[j], db, row) <==> Objected(j, db, row)
  {
    hide Holds, Orphan, Dangling, NoAgency, Unmatched, Lost, OtherTenant;
    Meanings(db, row);
    if j == 6 {} else if j == 7 {} else if j == 8 {} else if j == 9 {} else if j == 10 {} else {}
  }

  lemma LateChecks(j: nat, db: Database, row: Row)
    requires 12 <= j < 19
    ensures |CHECKS| == 19 && CHECKS[j].table == CheckedTable(j)
    ensures Flags(CHECKS[j], db, row) <==> Objected(j, db, row)
  {
    hide Holds, Orphan, Dangling, NoAgency, Unmatched, Lost, OtherTenant;
    Meanings(db, row);
    if j == 12 {} else if j == 13 {} else if j == 14 {} else if j == 15 {} else if j == 16 {} else if j == 17 {} else {}
  }

  /** Every check flags exactly the rows with its fault, NULLs included. */
  lemma CheckMeaning(j: nat, db: Database, row: Row)
    requires j < 19
    ensures |CHECKS| == 19 && CHECKS[j].table == CheckedTable(j)
    ensures Flags(CHECKS[j], db, row) <==> Objected(j, db, row)
  {
    hide CHECKS, Flags, Objected, CheckedTable;
    if j < 6 {
      EarlyChecks(j, db, row);
    } else if j < 12 {
      MiddleChecks(j, db, row);
    } else {
      LateChecks(j, db, row);
    }
  }

  lemma EarlySteps(i: nat, db: Database, row: Row)
    requires i < 8
    ensures |STEPS| == 13 && STEPS[i].table == RepairedTable(i)
    ensures STEPS[i].action == if i == 0 then SetNull(UserId) else if i == 1 then SetNull(AgencyId) else Delete
    ensures Holds(STEPS[i].cond, db, row) <==> Taken(i, db, row)
  {
    hide Holds, Orphan, Dangling, NoAgency, Unmatched, Lost, OtherTenant;
    Meanings(db, row);
    if i == 0 {} else if i == 1 {} else if i == 2 {} else if i == 3 {} else if i == 4 {} else if i == 5 {} else if i == 6 {} else {}
  }

  lemma LateSteps(i: nat, db: Database, row: Row)
    requires 8 <= i < 13
    ensures |STEPS| == 13 && STEPS[i].table == RepairedTable(i) && STEPS[i].action == Delete
    ensures Holds(STEPS[i].cond, db, row) <==> Taken(i, db, row)
  {
    hide Holds, Orphan, Dangling, NoAgency, Unmatched, Lost, OtherTenant;
    Meanings(db, row);
    NullIsUnmatched(db, row);
    if i == 8 {} else if i == 9 {} else if i == 10 {} else if i == 11 {} else {}
  }

  lemma NullIsUnmatched(db: Database, row: Row)
    ensures Get(row, AgencyId) == Null ==> Unmatched(db, AccountsAgency, Id, Get(row, AgencyId))
  {
  }

  /** And every step takes exactly the rows that are broken or stale. */
  lemma StepMeaning(i: nat, db: Database, row: Row)
    requires i < 13
    ensures |STEPS| == 13 && STEPS[i].table == RepairedTable(i)
    ensures STEPS[i].action == if i == 0 then SetNull(UserId) else if i == 1 then SetNull(AgencyId) else Delete
    ensures Holds(STEPS[i].cond, db, row) <==> Taken(i, db, row)
  {
    hide STEPS, Holds, Taken, RepairedTable;
    if i < 8 {
      EarlySteps(i, db, row);
    } else {
      LateSteps(i, db, row);
    }
  }

  /***** The whole repair *****/

  /** The rows that are not broken, in their order. */
  ghost function Unbroken(db: Database, table: TableName, rows: Rows): Rows {
    if rows == [] then []
    else
      var last := rows[|rows| - 1];
      Unbroken(db, table, rows[..|rows| - 1]) + if Broken(db, table, last) then [] else [last]
  }

  /** The security event without its stale references. */
  ghost function Freed(db: Database, row: Row): Row {
    map column | column in row :: if Stale(db, row, column) then Null else row[column]
  }

  ghost function FreedRows(db: Database, rows: Rows): Rows {
    seq(|rows|, i requires 0 <= i < |rows| => Freed(db, rows[i]))
  }

  /** The database without broken rows and stale references, all of them judged in the database as it was. */
  ghost function OrphanFree(db: Database): Database {
    map table | table in db ::
      if table == AuthSecurityEvents then FreedRows(db, db[table]) else Unbroken(db, table, db[table])
  }

  lemma TableRank(table: TableName)
    ensures Rank(table) < 13 && Rank(table) != 1 && (Rank(table) > 0 ==> RepairedTable(Rank(table)) == table)
    ensures Rank(table) == 0 ==> forall db, row :: !Broken(db, table, row)
  {
  }

  lemma DoomedMeaning(db: Database, table: TableName, row: Row)
    ensures Doomed(StepSet(STEPS), db, table, row) <==> Broken(db, table, row)
  {
    hide STEPS, Holds, Broken, Rank;
    StepMeaning(0, db, row);
    if Doomed(StepSet(STEPS), db, table, row) {
      var s :| s in StepSet(STEPS) && s.action.Delete? && Fires(s, db, table, row);
      var i :| 0 <= i < |STEPS| && STEPS[i] == s;
      StepMeaning(i, db, row);
    }
    if Broken(db, table, row) {
      TableRank(table);
      StepMeaning(Rank(table), db, row);
      assert STEPS[Rank(table)] in StepSet(STEPS) && Fires(STEPS[Rank(table)], db, table, row);
    }
  }

  lemma ClearedMeaning(db: Database, table: TableName, row: Row, column: ColumnName)
    ensures Cleared(StepSet(STEPS), db, table, row, column) <==> table == AuthSecurityEvents && Stale(db, row, column)
  {
    hide STEPS, Holds, Broken, Lost, Stale, Taken;
    StepMeaning(0, db, row);
    StepMeaning(1, db, row);
    FirstTaken(db, row);
    if Cleared(StepSet(STEPS), db, table, row, column) {
      var s :| s in StepSet(STEPS) && s.action == SetNull(column) && Fires(s, db, table, row);
      var i :| 0 <= i < |STEPS| && STEPS[i] == s;
      StepMeaning(i, db, row);
    }
    if table == AuthSecurityEvents && Stale(db, row, column) {
      var i := if column == UserId then 0 else 1;
      assert STEPS[i] in StepSet(STEPS) && Fires(STEPS[i], db, table, row);
    }
  }

  lemma FirstTaken(db: Database, row: Row)
    ensures Taken(0, db, row) <==> Stale(db, row, UserId)
    ensures Taken(1, db, row) <==> Stale(db, row, AgencyId)
    ensures forall column :: Stale(db, row, column) ==> column == UserId || column == AgencyId
  {
    hide Lost, Broken;
  }

  lemma MendedMeaning(db: Database, table: TableName, row: Row)
    ensures Mended(StepSet(STEPS), db, table, row) == if table == AuthSecurityEvents then Freed(db, row) else row
  {
    hide STEPS, Cleared, Stale;
    forall column
      ensures Cleared(StepSet(STEPS), db, table, row, column) <==> table == AuthSecurityEvents && Stale(db, row, column)
    {
      ClearedMeaning(db, table, row, column);
    }
    assert Mended(StepSet(STEPS), db, table, row) == if table == AuthSecurityEvents then Freed(db, row) else row;
  }

  lemma {:induction false} RowsMeaning(db: Database, table: TableName, rows: Rows)
    ensures RepairedRows(StepSet(STEPS), db, table, rows) ==
            if table == AuthSecurityEvents then FreedRows(db, rows) else Unbroken(db, table, rows)
  {
    hide STEPS, Doomed, Mended, Broken, Freed;
    if rows != [] {
      var init, last := rows[..|rows| - 1], rows[|rows| - 1];
      RowsMeaning(db, table, init);
      DoomedMeaning(db, table, last);
      MendedMeaning(db, table, last);
      NoBrokenEvents(db, last);
      assert FreedRows(db, rows) == FreedRows(db, init) + [Freed(db, last)];
    }
  }

  lemma NoBrokenEvents(db: Database, row: Row)
    ensures !Broken(db, AuthSecurityEvents, row)
  {
  }

  /** The thirteen steps, in whatever order, remove exactly the broken rows and clear exactly the stale references. */
  lemma StepsMeaning(db: Database, run: seq<Step>)
    requires multiset(run) == multiset(STEPS)
    ensures RunSteps(run, db) == OrphanFree(db) && Repaired(StepSet(STEPS), db) == OrphanFree(db)
  {
    hide STEPS, RepairedRows, Unbroken, FreedRows;
    forall table | table in db
      ensures Repaired(StepSet(STEPS), db)[table] == OrphanFree(db)[table]
    {
      RowsMeaning(db, table, db[table]);
    }
    StepsAnyOrder(run, db);
    StepsIndependent();
    RunIsRepaired(StepSet(STEPS), STEPS, db);
  }

  /** Outside the security events a row is deleted exactly when it is broken, which is when some check flags it. */
  lemma DeletedExactlyFlagged(db: Database, table: TableName, row: Row)
    requires table != AuthSecurityEvents
    ensures Doomed(StepSet(STEPS), db, table, row) <==> Broken(db, table, row)
    ensures Broken(db, table, row) <==> exists j | 0 <= j < 19 :: CheckedTable(j) == table && Objected(j, db, row)
    ensures Mended(StepSet(STEPS), db, table, row) == row
  {
    hide STEPS, Doomed, Mended, Unmatched, Lost, OtherTenant, Freed;
    DoomedMeaning(db, table, row);
    MendedMeaning(db, table, row);
    BrokenIsObjected(db, table, row);
  }

  lemma BrokenIsObjected(db: Database, table: TableName, row: Row)
    requires table != AuthSecurityEvents
    ensures Broken(db, table, row) <==> exists j | 0 <= j < 19 :: CheckedTable(j) == table && Objected(j, db, row)
  {
    hide STEPS, CHECKS, Flags, Doomed, Broken, Objected, CheckedTable;
    DoomedMeaning(db, table, row);
    FlaggedIsDeleted(db, table, row);
    CheckMeaning(0, db, row);
    if c :| c in CHECKS && c.table == table && Flags(c, db, row) {
      var j :| 0 <= j < |CHECKS| && CHECKS[j] == c;
      CheckMeaning(j, db, row);
    }
    if j :| 0 <= j < 19 && CheckedTable(j) == table && Objected(j, db, row) {
      CheckMeaning(j, db, row);
      assert CHECKS[j] in CHECKS;
    }
  }

  /** In the security events no row is deleted, and a column changes, to NULL, exactly when it refers to something lost. */
  lemma AuthEventsMended(db: Database, row: Row, column: ColumnName)
    requires column in row
    ensures !Doomed(StepSet(STEPS), db, AuthSecurityEvents, row)
    ensures Mended(StepSet(STEPS), db, AuthSecurityEvents, row)[column] == if Stale(db, row, column) then Null else row[column]
    ensures Stale(db, row, UserId) <==> Objected(0, db, row)
    ensures Stale(db, row, AgencyId) <==> Objected(1, db, row)
  {
    hide STEPS, Doomed, Mended, Lost;
    DoomedMeaning(db, AuthSecurityEvents, row);
    NoBrokenEvents(db, row);
    MendedMeaning(db, AuthSecurityEvents, row);
  }

  ghost function Tally(rows: Rows, wanted: Row -> bool): nat {
    if rows == [] then 0 else Tally(rows[..|rows| - 1], wanted) + if wanted(rows[|rows| - 1]) then 1 else 0
  }

  lemma {:induction false} CountIsTally(cond: Cond, db: Database, rows: Rows, wanted: Row -> bool)
    requires forall row | row in rows :: Holds(cond, db, row) <==> wanted(row)
    ensures Count(cond, db, rows) == Tally(rows, wanted)
  {
    hide Holds;
    if rows != [] {
      assert forall row | row in rows[..|rows| - 1] :: row in rows;
      CountIsTally(cond, db, rows[..|rows| - 1], wanted);
    }
  }

  /** On its turn each step reports the rows that are broken, or stale in its column, in the database as it was. */
  lemma StepReports(db: Database, k: nat)
    requires k < 13
    ensures |STEPS| == 13
    ensures RowCount(STEPS[k], RunSteps(STEPS[..k], db)) == Tally(Table(db, RepairedTable(k)), row => Taken(k, db, row))
  {
    hide STEPS, Holds, Taken, RepairedTable, Independent, Count, RunSteps, Repaired;
    StepMeaning(k, db, map[]);
    StepsIndependent();
    var s, done := STEPS[k], StepSet(STEPS[..k]);
    forall u | u in done && u.table == s.table
      ensures u.action.SetNull? && u != s
    {
      var i :| 0 <= i < k && STEPS[..k][i] == u;
      SameTableSteps(i, k, db);
    }
    forall u | u in done
      ensures u in StepSet(STEPS)
    {
      var i :| 0 <= i < k && STEPS[..k][i] == u;
      assert STEPS[i] == u;
    }
    assert s in StepSet(STEPS);
    RunIsRepaired(StepSet(STEPS), STEPS[..k], db);
    CountUnaffected(StepSet(STEPS), db, done, s, Table(db, s.table));
    RepairedTableRows(done, db, s.table);
    forall row
      ensures Holds(s.cond, db, row) <==> Taken(k, db, row)
    {
      StepMeaning(k, db, row);
    }
    CountIsTally(s.cond, db, Table(db, s.table), row => Taken(k, db, row));
  }

  lemma SameTableSteps(i: nat, k: nat, db: Database)
    requires i < k < 13 && |STEPS| == 13 && STEPS[i].table == STEPS[k].table
    ensures STEPS[i].action.SetNull? && STEPS[i] != STEPS[k]
  {
    hide STEPS, Holds, Taken;
    StepMeaning(i, db, map[]);
    StepMeaning(k, db, map[]);
  }

  lemma RepairedTableRows(steps: set<Step>, db: Database, table: TableName)
    ensures Table(Repaired(steps, db), table) == RepairedRows(steps, db, table, Table(db, table))
  {
  }
}
