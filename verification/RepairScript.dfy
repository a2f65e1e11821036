/**
 * The repair and verification scripts: the statements they run on a database and an object store, what they report, and
 * what the whole repair means for each row.
 */
module RepairScript {
  import opened Integrity
  import opened Orphans
  import opened Outcomes
  import opened Repair
  import opened Schema
  import opened Sql
  import opened Text

  /***** Storage objects, as the script treats them *****/

  /** `str(row.get(column) or "").strip()` */
  function CellText(c: Cell): string {
    match c
    case Null => ""
    case Int(i) => if i == 0 then "" else Decimal(i)
    case Text(s) => Strip(s)
  }

  /** Whether `head_object` finds the object of this bucket and key. */
  type Head = (string, string) -> bool

  predicate Ready(row: Row) {
    Get(row, Status) == Text("ready") && Get(row, DeletedAt) == Null
  }

  /** `storage_id = ANY(ids) AND deleted_at IS NULL` */
  predicate PhotoDue(ids: seq<Cell>, row: Row) {
    Get(row, StorageId) != Null && Get(row, StorageId) in ids && Get(row, DeletedAt) == Null
  }

  /** `id = ANY(ids) AND status = 'ready' AND deleted_at IS NULL` */
  predicate ObjectDue(ids: seq<Cell>, row: Row) {
    Get(row, Id) != Null && Get(row, Id) in ids && Ready(row)
  }

  /** `UPDATE offer_photos SET ...` on the rows that are due. */
  function PhotoRow(now: Cell, ids: seq<Cell>, row: Row): Row {
    if PhotoDue(ids, row) then
      var origin := if Get(row, DeleteOrigin) != Null then Get(row, DeleteOrigin) else Text("manual");
      row[DeletedAt := now][DeleteOrigin := origin][UpdatedAt := now]
    else row
  }

  /** `UPDATE storage_objects SET ...` on the rows that are due. */
  function ObjectRow(now: Cell, ids: seq<Cell>, row: Row): Row {
    if ObjectDue(ids, row) then
      row[Status := Text("deleted")][DeletedAt := now][UpdatedAt := now]
    else row
  }

  function PhotoRows(now: Cell, ids: seq<Cell>, rows: Rows): Rows {
    seq(|rows|, i requires 0 <= i < |rows| => PhotoRow(now, ids, rows[i]))
  }

  function ObjectRows(now: Cell, ids: seq<Cell>, rows: Rows): Rows {
    seq(|rows|, i requires 0 <= i < |rows| => ObjectRow(now, ids, rows[i]))
  }

  function CountRows(rows: Rows, due: Row -> bool): nat {
    if rows == [] then 0
    else CountRows(rows[..|rows| - 1], due) + if due(rows[|rows| - 1]) then 1 else 0
  }

  function PhotosRepaired(now: Cell, ids: seq<Cell>, db: Database): Database {
    if OfferPhotos in db then db[OfferPhotos := PhotoRows(now, ids, db[OfferPhotos])] else db
  }

  function StorageRepaired(now: Cell, ids: seq<Cell>, db: Database): Database {
    var photos := PhotosRepaired(now, ids, db);
    if StorageObjects in db then photos[StorageObjects := ObjectRows(now, ids, db[StorageObjects])] else photos
  }

  /***** What the repair means *****/

  /** The column shows this text, space around it aside. */
  ghost predicate Shows(c: Cell, text: string) {
    match c
    case Null => false
    case Int(i) => i != 0 && text == Decimal(i)
    case Text(s) => IsTrim(s, text)
  }

  /** The row names a bucket and a key under which the store has an object. */
  ghost predicate HasBytes(head: Head, row: Row) {
    exists bucket, key :: BytesAt(head, row, bucket, key)
  }

  ghost predicate BytesAt(head: Head, row: Row, bucket: string, key: string) {
    && Shows(Get(row, Bucket), bucket) && bucket != ""
    && Shows(Get(row, ObjectKey), key) && key != "" && head(bucket, key)
  }

  ghost predicate Live(row: Row) {
    Status in row && row[Status] == Text("ready") && (DeletedAt in row ==> row[DeletedAt] == Null)
  }

  /** A storage object that claims to be ready and has no bytes. */
  ghost predicate Lacking(head: Head, row: Row) {
    Live(row) && !HasBytes(head, row)
  }

  /** The ids of those objects, in row order. */
  ghost function LackingIds(head: Head, rows: Rows): seq<Cell> {
    if rows == [] then []
    else
      var last := rows[|rows| - 1];
      LackingIds(head, rows[..|rows| - 1]) + if Lacking(head, last) then [Get(last, Id)] else []
  }

  /** The id of an object without bytes. */
  ghost predicate LackingId(head: Head, db: Database, id: Cell) {
    id != Null && exists o | o in Table(db, StorageObjects) :: Lacking(head, o) && Get(o, Id) == id
  }

  ghost predicate PhotoLost(head: Head, db: Database, row: Row) {
    LackingId(head, db, Get(row, StorageId)) && Get(row, DeletedAt) == Null
  }

  ghost predicate ObjectLost(head: Head, db: Database, row: Row) {
    LackingId(head, db, Get(row, Id)) && Live(row)
  }

  /** A live photo of such an object is marked as deleted; its origin is kept if it has one. */
  ghost function PhotoAfter(now: Cell, head: Head, db: Database, row: Row): Row {
    if !PhotoLost(head, db, row) then row
    else if Get(row, DeleteOrigin) == Null then row + map[DeletedAt := now, UpdatedAt := now, DeleteOrigin := Text("manual")]
    else row + map[DeletedAt := now, UpdatedAt := now]
  }

  /** So is the object. */
  ghost function ObjectAfter(now: Cell, head: Head, db: Database, row: Row): Row {
    if ObjectLost(head, db, row) then row + map[Status := Text("deleted"), DeletedAt := now, UpdatedAt := now] else row
  }

  ghost function PhotosAfter(now: Cell, head: Head, db: Database, rows: Rows): Rows {
    seq(|rows|, i requires 0 <= i < |rows| => PhotoAfter(now, head, db, rows[i]))
  }

  ghost function ObjectsAfter(now: Cell, head: Head, db: Database, rows: Rows): Rows {
    seq(|rows|, i requires 0 <= i < |rows| => ObjectAfter(now, head, db, rows[i]))
  }

  /** What the repair makes of a database: every row judged in the database as it was. */
  ghost function AfterRepairs(now: Cell, head: Head, db: Database): Database {
    map table | table in db ::
      match table
      case OfferPhotos => PhotosAfter(now, head, db, db[table])
      case StorageObjects => ObjectsAfter(now, head, db, db[table])
      case _ => OrphanFree(db)[table]
  }

  /** Primary keys are not NULL. */
  ghost predicate StorageIdsPresent(db: Database) {
    forall row | row in Table(db, StorageObjects) :: Get(row, Id) != Null
  }

  /***** The script does what it means *****/

  lemma TextMeaning(c: Cell, text: string)
    requires text != ""
    ensures Shows(c, text) <==> CellText(c) == text
  {
    hide Strip, IsTrim;
    if c.Text? {
      StripIsTrim(c.s);
      if IsTrim(c.s, text) {
        TrimUnique(c.s, text);
      }
    }
  }

  /** The tests of the loop over the storage rows. */
  lemma LackingMeaning(head: Head, row: Row)
    ensures var bucket, key := CellText(Get(row, Bucket)), CellText(Get(row, ObjectKey));
            Lacking(head, row) <==> Ready(row) && (bucket == "" || key == "" || !head(bucket, key))
    ensures Live(row) <==> Ready(row)
  {
    hide CellText, Shows;
    var bucket, key := CellText(Get(row, Bucket)), CellText(Get(row, ObjectKey));
    forall text | text != ""
      ensures Shows(Get(row, Bucket), text) <==> bucket == text
      ensures Shows(Get(row, ObjectKey), text) <==> key == text
    {
      TextMeaning(Get(row, Bucket), text);
      TextMeaning(Get(row, ObjectKey), text);
    }
    if bucket != "" && key != "" && head(bucket, key) {
      assert BytesAt(head, row, bucket, key);
    }
  }

  lemma {:induction false} LackingIdsMeaning(head: Head, rows: Rows, id: Cell)
    ensures id in LackingIds(head, rows) <==> exists o | o in rows :: Lacking(head, o) && Get(o, Id) == id
  {
    hide Lacking;
    if rows != [] {
      var init, last := rows[..|rows| - 1], rows[|rows| - 1];
      LackingIdsMeaning(head, init, id);
      assert rows == init + [last];
    }
  }

  lemma DueMeaning(head: Head, db: Database, ids: seq<Cell>, row: Row)
    requires ids == LackingIds(head, Table(db, StorageObjects))
    ensures PhotoDue(ids, row) <==> PhotoLost(head, db, row)
    ensures ObjectDue(ids, row) <==> ObjectLost(head, db, row)
  {
    hide Lacking, Live, Ready;
    LackingMeaning(head, row);
    LackingIdsMeaning(head, Table(db, StorageObjects), Get(row, StorageId));
    LackingIdsMeaning(head, Table(db, StorageObjects), Get(row, Id));
  }

  lemma RowMeaning(now: Cell, head: Head, db: Database, ids: seq<Cell>, row: Row)
    requires ids == LackingIds(head, Table(db, StorageObjects))
    ensures PhotoRow(now, ids, row) == PhotoAfter(now, head, db, row)
    ensures ObjectRow(now, ids, row) == ObjectAfter(now, head, db, row)
  {
    hide PhotoDue, ObjectDue, PhotoLost, ObjectLost;
    DueMeaning(head, db, ids, row);
    if PhotoDue(ids, row) {
      PhotoUpdate(now, row);
    }
    if ObjectDue(ids, row) {
      ObjectUpdate(now, row);
    }
  }

  lemma PhotoUpdate(now: Cell, row: Row)
    ensures Get(row, DeleteOrigin) != Null ==>
              row[DeletedAt := now][DeleteOrigin := Get(row, DeleteOrigin)][UpdatedAt := now] == row + map[DeletedAt := now, UpdatedAt := now]
    ensures row[DeletedAt := now][DeleteOrigin := Text("manual")][UpdatedAt := now] ==
            row + map[DeletedAt := now, UpdatedAt := now, DeleteOrigin := Text("manual")]
  {
  }

  lemma ObjectUpdate(now: Cell, row: Row)
    ensures row[Status := Text("deleted")][DeletedAt := now][UpdatedAt := now] ==
            row + map[Status := Text("deleted"), DeletedAt := now, UpdatedAt := now]
  {
  }

  /** The tables no step touches: those with storage objects, and those that others refer to. */
  ghost predicate Untouched(table: TableName) {
    match table
    case StorageObjects | OfferPhotos => true
    case AccountsUser | AccountsAgency | ImportJob | ImportChunk | Demandes | Locations | Offers | Clients => true
    case _ => false
  }

  lemma UntouchedRow(db: Database, table: TableName, row: Row)
    requires Untouched(table)
    ensures !Broken(db, table, row)
  {
  }

  lemma StepsLeave(db: Database, table: TableName)
    requires Untouched(table)
    ensures Table(OrphanFree(db), table) == Table(db, table)
  {
    hide OrphanFree, Broken;
    OrphanFreeTables(db);
    if table in db {
      forall row
        ensures !Broken(db, table, row)
      {
        UntouchedRow(db, table, row);
      }
      NothingBroken(db, table, db[table]);
    }
  }

  lemma {:induction false} NothingBroken(db: Database, table: TableName, rows: Rows)
    requires forall row | row in rows :: !Broken(db, table, row)
    ensures Unbroken(db, table, rows) == rows
  {
    hide Broken;
    if rows != [] {
      var init, last := rows[..|rows| - 1], rows[|rows| - 1];
      assert rows == init + [last];
      NothingBroken(db, table, init);
    }
  }

  /** Steps and storage updates together. */
  lemma RepairMeaning(now: Cell, head: Head, db: Database)
    ensures StorageRepaired(now, LackingIds(head, Table(db, StorageObjects)), OrphanFree(db)) == AfterRepairs(now, head, db)
  {
    hide *;
    var ids := LackingIds(head, Table(db, StorageObjects));
    var made, after := StorageRepaired(now, ids, OrphanFree(db)), AfterRepairs(now, head, db);
    StorageKept(db);
    TablesMapped(now, ids, OrphanFree(db));
    TablesAfter(now, head, db);
    forall table | table in db
      ensures made[table] == after[table]
    {
      SameRows(now, head, db, ids, db[table]);
    }
    assert made == after;
  }

  lemma StorageKept(db: Database)
    ensures OrphanFree(db).Keys == db.Keys
    ensures forall table | table in {StorageObjects, OfferPhotos} && table in db :: OrphanFree(db)[table] == db[table]
  {
    hide OrphanFree;
    OrphanFreeTables(db);
    StepsLeave(db, OfferPhotos);
    StepsLeave(db, StorageObjects);
  }

  lemma SameRows(now: Cell, head: Head, db: Database, ids: seq<Cell>, rows: Rows)
    requires ids == LackingIds(head, Table(db, StorageObjects))
    ensures PhotoRows(now, ids, rows) == PhotosAfter(now, head, db, rows)
    ensures ObjectRows(now, ids, rows) == ObjectsAfter(now, head, db, rows)
  {
    hide PhotoRow, ObjectRow, PhotoAfter, ObjectAfter;
    forall i | 0 <= i < |rows|
      ensures PhotoRow(now, ids, rows[i]) == PhotoAfter(now, head, db, rows[i])
      ensures ObjectRow(now, ids, rows[i]) == ObjectAfter(now, head, db, rows[i])
    {
      RowMeaning(now, head, db, ids, rows[i]);
    }
  }

  lemma TablesAfter(now: Cell, head: Head, db: Database)
    ensures AfterRepairs(now, head, db).Keys == db.Keys
    ensures forall table | table in db :: AfterRepairs(now, head, db)[table] ==
              if table == OfferPhotos then PhotosAfter(now, head, db, db[table])
              else if table == StorageObjects then ObjectsAfter(now, head, db, db[table])
              else OrphanFree(db)[table]
  {
    hide PhotosAfter, ObjectsAfter, OrphanFree;
    OrphanFreeTables(db);
  }

  lemma TablesMapped(now: Cell, ids: seq<Cell>, db: Database)
    ensures StorageRepaired(now, ids, db).Keys == db.Keys
    ensures forall table | table in db :: StorageRepaired(now, ids, db)[table] ==
              if table == OfferPhotos then PhotoRows(now, ids, db[table])
              else if table == StorageObjects then ObjectRows(now, ids, db[table])
              else db[table]
  {
    hide PhotoRows, ObjectRows;
  }

  /***** After the repair *****/

  /** Every check counts nothing, said plainly. */
  ghost predicate Clean(head: Head, db: Database) {
    && (forall j, row | 0 <= j < 19 && row in Table(db, CheckedTable(j)) :: !Objected(j, db, row))
    && (forall row | row in Table(db, StorageObjects) :: !Lacking(head, row))
  }

  lemma ObjectedFrame(j: nat, db: Database, db': Database, row: Row)
    requires j < 19 && forall table | table in PARENTS :: Table(db, table) == Table(db', table)
    ensures Objected(j, db, row) <==> Objected(j, db', row)
  {
    hide OtherTenant;
  }

  lemma FreedNotObjected(j: nat, db: Database, row: Row)
    requires j < 2
    ensures !Objected(j, db, Freed(db, row))
  {
  }

  lemma {:induction false} UnbrokenRows(db: Database, table: TableName, rows: Rows, row: Row)
    ensures row in Unbroken(db, table, rows) <==> row in rows && !Broken(db, table, row)
  {
    hide Broken;
    if rows != [] {
      var init, last := rows[..|rows| - 1], rows[|rows| - 1];
      UnbrokenRows(db, table, init, row);
      assert rows == init + [last];
    }
  }

  lemma ParentUntouched(table: TableName)
    requires table in PARENTS
    ensures Untouched(table) && table !in {StorageObjects, OfferPhotos}
  {
  }

  lemma ParentsKept(now: Cell, head: Head, db: Database)
    ensures forall table | table in PARENTS :: Table(AfterRepairs(now, head, db), table) == Table(db, table)
  {
    hide OrphanFree, PARENTS, Untouched;
    OrphanFreeTables(db);
    forall table | table in PARENTS
      ensures Table(AfterRepairs(now, head, db), table) == Table(db, table)
    {
      ParentUntouched(table);
      StepsLeave(db, table);
    }
  }

  lemma OrphanFreeTables(db: Database)
    ensures OrphanFree(db).Keys == db.Keys
    ensures forall table | table in db :: OrphanFree(db)[table] ==
              if table == AuthSecurityEvents then FreedRows(db, db[table]) else Unbroken(db, table, db[table])
  {
  }

  lemma CheckedTables(j: nat)
    ensures CheckedTable(j) !in {StorageObjects, OfferPhotos} && (CheckedTable(j) == AuthSecurityEvents <==> j < 2)
  {
  }

  lemma CheckedRow(now: Cell, head: Head, db: Database, j: nat, row: Row)
    requires j < 19 && row in Table(AfterRepairs(now, head, db), CheckedTable(j))
    ensures !Objected(j, db, row)
  {
    hide OrphanFree, Objected, Broken, CheckedTable, Freed;
    var table := CheckedTable(j);
    CheckedTables(j);
    OrphanFreeTables(db);
    if j < 2 {
      var i :| 0 <= i < |db[table]| && row == Freed(db, db[table][i]);
      FreedNotObjected(j, db, db[table][i]);
    } else {
      UnbrokenRows(db, table, db[table], row);
      BrokenIsObjected(db, table, row);
    }
  }

  /** After the repair no row has the fault of any check, from any database. */
  lemma ChecksClean(now: Cell, head: Head, db: Database, j: nat, row: Row)
    requires j < 19 && row in Table(AfterRepairs(now, head, db), CheckedTable(j))
    ensures !Objected(j, AfterRepairs(now, head, db), row)
  {
    hide Objected, AfterRepairs, CheckedTable;
    CheckedRow(now, head, db, j, row);
    ParentsKept(now, head, db);
    ObjectedFrame(j, db, AfterRepairs(now, head, db), row);
  }

  /** And no storage object claims bytes it does not have. */
  lemma StorageClean(now: Cell, head: Head, db: Database, row: Row)
    requires StorageIdsPresent(db) && now != Null && row in Table(AfterRepairs(now, head, db), StorageObjects)
    ensures !Lacking(head, row)
  {
    hide HasBytes;
    var rows := Table(db, StorageObjects);
    var i :| 0 <= i < |rows| && row == ObjectAfter(now, head, db, rows[i]);
    assert rows[i] in rows;
    if Lacking(head, rows[i]) {
      assert LackingId(head, db, Get(rows[i], Id));
    }
  }

  lemma AllClean(now: Cell, head: Head, db: Database)
    requires StorageIdsPresent(db) && now != Null
    ensures Clean(head, AfterRepairs(now, head, db))
  {
    hide AfterRepairs, Objected, Lacking, StorageIdsPresent, CheckedTable;
    var after := AfterRepairs(now, head, db);
    forall j, row | 0 <= j < 19 && row in Table(after, CheckedTable(j))
      ensures !Objected(j, after, row)
    {
      ChecksClean(now, head, db, j, row);
    }
    forall row | row in Table(after, StorageObjects)
      ensures !Lacking(head, row)
    {
      StorageClean(now, head, db, row);
    }
  }

  /** A clean database has no broken row and no stale reference. */
  lemma CleanRows(head: Head, db: Database, table: TableName, row: Row)
    requires Clean(head, db) && row in Table(db, table)
    ensures !Broken(db, table, row)
    ensures table == AuthSecurityEvents ==> Freed(db, row) == row
  {
    hide Objected, Broken, Lacking, CheckedTable, Lost;
    CheckedTables(0);
    CheckedTables(1);
    if table == AuthSecurityEvents {
      NoBrokenEvents(db, row);
      StaleIsObjected(db, row);
      assert !Objected(0, db, row) && !Objected(1, db, row);
      assert Freed(db, row) == row;
    } else {
      BrokenIsObjected(db, table, row);
    }
  }

  lemma StaleIsObjected(db: Database, row: Row)
    ensures Stale(db, row, UserId) <==> Objected(0, db, row)
    ensures Stale(db, row, AgencyId) <==> Objected(1, db, row)
  {
    hide Lost;
  }

  /** A clean database stays as it is. */
  lemma CleanIsFixed(now: Cell, head: Head, db: Database)
    requires Clean(head, db)
    ensures AfterRepairs(now, head, db) == db
  {
    hide Broken, Freed, Unbroken, OrphanFree, PhotoAfter, ObjectAfter, Clean;
    var after := AfterRepairs(now, head, db);
    OrphanFreeTables(db);
    forall table, row | row in Table(db, table)
      ensures !Broken(db, table, row) && (table == AuthSecurityEvents ==> Freed(db, row) == row)
    {
      CleanRows(head, db, table, row);
    }
    forall row
      ensures PhotoAfter(now, head, db, row) == row && ObjectAfter(now, head, db, row) == row
    {
      NoLackingId(head, db);
      NothingRetired(now, head, db, row);
    }
    forall table | table in db
      ensures after[table] == db[table]
    {
      if table == AuthSecurityEvents {
        forall i | 0 <= i < |db[table]|
          ensures Freed(db, db[table][i]) == db[table][i]
        {
          assert db[table][i] in Table(db, table);
        }
      } else {
        NothingBroken(db, table, db[table]);
      }
    }
  }

  lemma NothingRetired(now: Cell, head: Head, db: Database, row: Row)
    requires forall id :: !LackingId(head, db, id)
    ensures PhotoAfter(now, head, db, row) == row && ObjectAfter(now, head, db, row) == row
  {
  }

  lemma NoLackingId(head: Head, db: Database)
    requires Clean(head, db)
    ensures forall id :: !LackingId(head, db, id)
  {
  }

  /** A second run of the whole repair, at any later time, changes nothing; it reports zero for every step. */
  lemma WholeRunIdle(now: Cell, later: Cell, head: Head, db: Database, k: nat)
    requires StorageIdsPresent(db) && now != Null && k < 13
    ensures var after := AfterRepairs(now, head, db);
            AfterRepairs(later, head, after) == after && Tally(Table(after, RepairedTable(k)), row => Taken(k, after, row)) == 0
  {
    hide AfterRepairs, StorageIdsPresent, Clean, Taken;
    var after := AfterRepairs(now, head, db);
    AllClean(now, head, db);
    CleanIsFixed(later, head, after);
    forall row | row in Table(after, RepairedTable(k))
      ensures !Taken(k, after, row)
    {
      NothingTaken(head, after, k, row);
    }
    TallyNone(Table(after, RepairedTable(k)), row => Taken(k, after, row));
  }

  lemma NothingTaken(head: Head, db: Database, k: nat, row: Row)
    requires Clean(head, db) && k < 13 && row in Table(db, RepairedTable(k))
    ensures !Taken(k, db, row)
  {
    hide Broken, Objected, Lacking;
    CleanRows(head, db, RepairedTable(k), row);
    CheckedTables(0);
    CheckedTables(1);
    StaleIsObjected(db, row);
  }

  lemma {:induction false} TallyNone(rows: Rows, wanted: Row -> bool)
    ensures Tally(rows, wanted) == 0 <==> forall row | row in rows :: !wanted(row)
  {
    if rows != [] {
      var init, last := rows[..|rows| - 1], rows[|rows| - 1];
      TallyNone(init, wanted);
      assert rows == init + [last];
    }
  }

  class Connection {
    var tables: Database
    /** `auth_security_events_no_mod`: a row trigger that silently skips every UPDATE and DELETE. */
    var triggerEnabled: bool
    /** The statements that ended in a database error. */
    ghost var errors: nat

    constructor (db: Database, trigger: bool)
      ensures tables == db && triggerEnabled == trigger && errors == 0
    {
      tables, triggerEnabled, errors := db, trigger, 0;
    }

    /** A statement may fail; it then changes nothing. */
    method Fails() returns (failed: bool)
      modifies this`errors
      ensures errors == old(errors) + if failed then 1 else 0
    {
      failed := *;
      errors := errors + if failed then 1 else 0;
    }

    /** `cur.execute(step.sql)`; None is a database error. */
    method Execute(s: Step) returns (rowcount: Option<nat>)
      modifies this`tables, this`errors
      ensures errors == old(errors) + if rowcount.None? then 1 else 0
      ensures rowcount.None? ==> tables == old(tables)
      ensures rowcount.Some? && !(triggerEnabled && s.table == AuthSecurityEvents) ==>
                tables == ApplyStep(s, old(tables)) && rowcount.value == RowCount(s, old(tables))
      ensures rowcount.Some? && triggerEnabled && s.table == AuthSecurityEvents ==>
                tables == old(tables) && rowcount.value == 0
    {
      var failed := Fails();
      if failed {
        return None;
      }
      if triggerEnabled && s.table == AuthSecurityEvents {
        return Some(0);
      }
      rowcount := Some(RowCount(s, tables));
      tables := ApplyStep(s, tables);
    }

    /** `missing_ready_storage_objects`: the ids it returns. */
    method MissingReadyStorageObjects(head: Head) returns (missing: seq<Cell>)
      ensures missing == LackingIds(head, Table(tables, StorageObjects))
      ensures |missing| == Tally(Table(tables, StorageObjects), row => Lacking(head, row))
    {
      hide Lacking, CellText, Ready;
      var rows := Table(tables, StorageObjects);
      missing := [];
      for k := 0 to |rows|
        invariant missing == LackingIds(head, rows[..k])
        invariant |missing| == Tally(rows[..k], row => Lacking(head, row))
      {
        var row := rows[k];
        assert rows[..k + 1][..k] == rows[..k];
        LackingMeaning(head, row);
        if Ready(row) {
          var bucket, key := CellText(Get(row, Bucket)), CellText(Get(row, ObjectKey));
          if bucket == "" || key == "" {
            missing := missing + [Get(row, Id)];
          } else if !head(bucket, key) {
            missing := missing + [Get(row, Id)];
          }
        }
      }
      assert rows[..|rows|] == rows;
    }

    /** The two updates for objects whose bytes are missing; on an error the transaction is rolled back by the caller. */
    method SoftDeleteMissing(missing: seq<Cell>, now: Cell) returns (rowcounts: Option<seq<nat>>)
      modifies this`tables, this`errors
      ensures errors == old(errors) + if rowcounts.None? then 1 else 0
      ensures rowcounts.Some? ==> tables == StorageRepaired(now, missing, old(tables))
      ensures rowcounts.Some? ==> rowcounts.value == [CountRows(Table(old(tables), OfferPhotos), row => PhotoDue(missing, row)),
                                                      CountRows(Table(old(tables), StorageObjects), row => ObjectDue(missing, row))]
    {
      hide PhotoRows, ObjectRows, CountRows;
      ghost var before := tables;
      if missing == [] {
        CountNone(Table(tables, OfferPhotos), row => PhotoDue(missing, row));
        CountNone(Table(tables, StorageObjects), row => ObjectDue(missing, row));
        NothingDue(now, missing, tables);
        return Some([0, 0]);
      }
      var failed := Fails();
      if failed {
        return None;
      }
      var photos := CountRows(Table(tables, OfferPhotos), row => PhotoDue(missing, row));
      tables := PhotosRepaired(now, missing, tables);
      failed := Fails();
      if failed {
        return None;
      }
      var objects := CountRows(Table(tables, StorageObjects), row => ObjectDue(missing, row));
      if StorageObjects in tables {
        tables := tables[StorageObjects := ObjectRows(now, missing, tables[StorageObjects])];
      }
      return Some([photos, objects]);
    }

    /** `_apply_repairs`: all of the repair with the reported row counts, or an error and nothing at all. */
    method ApplyRepairs(head: Head, now: Cell) returns (rowcounts: Option<seq<nat>>)
      modifies this
      ensures errors == old(errors) + if rowcounts.None? then 1 else 0
      ensures rowcounts.Some? ==> tables == AfterRepairs(now, head, old(tables)) && triggerEnabled
      ensures rowcounts.None? ==> tables == old(tables) && triggerEnabled == old(triggerEnabled)
      ensures rowcounts.Some? ==> ReportedCounts(head, old(tables), rowcounts.value)
    {
      hide STEPS, OrphanFree, StorageRepaired, RunSteps, ApplyStep, RowCount, LackingIds, CountRows, AfterRepairs, Table, ReportedCounts;
      var missing := MissingReadyStorageObjects(head);
      var savedTables, savedTrigger := tables, triggerEnabled;
      triggerEnabled := false;
      var counts: seq<nat> := [];
      RunNone(STEPS, savedTables);
      for k := 0 to |STEPS|
        invariant !triggerEnabled && errors == old(errors) && tables == RunSteps(STEPS[..k], savedTables)
        invariant |counts| == k
        invariant forall i | 0 <= i < k :: counts[i] == RowCount(STEPS[i], RunSteps(STEPS[..i], savedTables))
      {
        var rowcount := Execute(STEPS[k]);
        if rowcount.None? {
          tables, triggerEnabled := savedTables, savedTrigger;
          return None;
        }
        RunNext(STEPS, k, savedTables);
        counts := counts + [rowcount.value];
      }
      assert STEPS[..|STEPS|] == STEPS;
      StepsMeaning(savedTables, STEPS);
      StepsLeave(savedTables, OfferPhotos);
      StepsLeave(savedTables, StorageObjects);
      var soft := SoftDeleteMissing(missing, now);
      if soft.None? {
        tables, triggerEnabled := savedTables, savedTrigger;
        return None;
      }
      triggerEnabled := true;
      RepairMeaning(now, head, savedTables);
      CountsMeaning(head, savedTables, missing, counts + soft.value);
      return Some(counts + soft.value);
    }

    /** `_run_integrity_checks`: the nineteen counts, then the number of ready objects without bytes. */
    method RunIntegrityChecks(head: Head) returns (results: seq<nat>)
      ensures CheckCounts(head, tables, results)
    {
      hide CHECKS, CheckCount, LackingIds, PlainCount, Tally;
      results := [];
      ChecksNumber();
      for j := 0 to |CHECKS|
        invariant |results| == j
        invariant forall i | 0 <= i < j :: results[i] == PlainCount(i, tables)
      {
        CountMeaning(j, tables);
        results := results + [CheckCount(CHECKS[j], tables)];
      }
      var missing := MissingReadyStorageObjects(head);
      results := results + [|missing|];
    }

    /** `main` of the repair script: None is a refusal or a database error. */
    method RepairMain(g: Guards, head: Head, now: Cell) returns (r: Option<RepairReport>)
      modifies this
      ensures r.None? <==> Refusal(g).Some? || errors != old(errors)
      ensures !g.apply || r.None? ==> tables == old(tables) && triggerEnabled == old(triggerEnabled)
      ensures r.Some? && g.missingSchema ==> tables == old(tables) && r.value.exit == 1 && !r.value.ok
      ensures r.Some? && !g.missingSchema ==>
                && (g.apply ==> tables == AfterRepairs(now, head, old(tables)))
                && CheckCounts(head, old(tables), r.value.before) && CheckCounts(head, tables, r.value.after)
                && (if g.apply then ReportedCounts(head, old(tables), r.value.rowcounts) else r.value.rowcounts == [])
                && (r.value.ok <==> Clean(head, tables)) && r.value.exit == if g.apply && !r.value.ok then 1 else 0
      ensures r.Some? && !g.missingSchema && g.apply && StorageIdsPresent(old(tables)) && now != Null ==> r.value.ok
    {
      hide STEPS, CHECKS, CheckCounts, Refusal, AfterRepairs, StorageIdsPresent, ReportedCounts, Clean;
      var before: seq<nat> := [];
      if !g.missingSchema {
        before := RunIntegrityChecks(head);
      }
      ApplyNeedsSchema(g);
      if Refusal(g).Some? {
        return None;
      }
      if g.missingSchema {
        return Some(RepairReport(1, before, [], [], false));
      }
      ghost var db := tables;
      var rowcounts: seq<nat> := [];
      if g.apply {
        var applied := ApplyRepairs(head, now);
        if applied.None? {
          return None;
        }
        rowcounts := applied.value;
      }
      var after := RunIntegrityChecks(head);
      var ok := forall count | count in after :: count == 0;
      CleanByCounts(head, tables, after);
      if g.apply && StorageIdsPresent(db) && now != Null {
        AllClean(now, head, db);
      }
      return Some(RepairReport(if g.apply && !ok then 1 else 0, before, after, rowcounts, ok));
    }
  }

  datatype RepairReport = RepairReport(exit: nat, before: seq<nat>, after: seq<nat>, rowcounts: seq<nat>, ok: bool)

  /***** The reported counts *****/

  /**
   * The counts `_apply_repairs` reports: for each step the rows that are broken, or stale in its column, in the database
   * as it was; then the live photos and the ready objects without bytes.
   */
  ghost predicate ReportedCounts(head: Head, db: Database, counts: seq<nat>) {
    && |counts| == 15
    && (forall k | 0 <= k < 13 :: counts[k] == Tally(Table(db, RepairedTable(k)), row => Taken(k, db, row)))
    && counts[13] == Tally(Table(db, OfferPhotos), row => PhotoLost(head, db, row))
    && counts[14] == Tally(Table(db, StorageObjects), row => ObjectLost(head, db, row))
  }

  lemma CountsMeaning(head: Head, db: Database, missing: seq<Cell>, counts: seq<nat>)
    requires missing == LackingIds(head, Table(db, StorageObjects)) && |counts| == |STEPS| + 2
    requires forall i | 0 <= i < |STEPS| :: counts[i] == RowCount(STEPS[i], RunSteps(STEPS[..i], db))
    requires counts[|STEPS|] == CountRows(Table(db, OfferPhotos), row => PhotoDue(missing, row))
    requires counts[|STEPS| + 1] == CountRows(Table(db, StorageObjects), row => ObjectDue(missing, row))
    ensures ReportedCounts(head, db, counts)
  {
    hide STEPS, RowCount, RunSteps, CountRows, Tally, PhotoDue, ObjectDue, PhotoLost, ObjectLost, RepairedTable, Taken;
    StepReports(db, 0);
    forall k | 0 <= k < 13
      ensures counts[k] == Tally(Table(db, RepairedTable(k)), row => Taken(k, db, row))
    {
      StepReports(db, k);
    }
    forall row
      ensures PhotoDue(missing, row) <==> PhotoLost(head, db, row)
      ensures ObjectDue(missing, row) <==> ObjectLost(head, db, row)
    {
      DueMeaning(head, db, missing, row);
    }
    CountRowsIsTally(Table(db, OfferPhotos), row => PhotoDue(missing, row), row => PhotoLost(head, db, row));
    CountRowsIsTally(Table(db, StorageObjects), row => ObjectDue(missing, row), row => ObjectLost(head, db, row));
  }

  lemma {:induction false} CountRowsIsTally(rows: Rows, due: Row -> bool, wanted: Row -> bool)
    requires forall row :: due(row) <==> wanted(row)
    ensures CountRows(rows, due) == Tally(rows, wanted)
  {
    if rows != [] {
      CountRowsIsTally(rows[..|rows| - 1], due, wanted);
    }
  }

  lemma {:induction false} CountNone(rows: Rows, due: Row -> bool)
    requires forall row | row in rows :: !due(row)
    ensures CountRows(rows, due) == 0
  {
    if rows != [] {
      assert forall row | row in rows[..|rows| - 1] :: row in rows;
      CountNone(rows[..|rows| - 1], due);
    }
  }

  lemma NothingDue(now: Cell, ids: seq<Cell>, db: Database)
    requires ids == []
    ensures StorageRepaired(now, ids, db) == db
  {
    forall rows: Rows
      ensures PhotoRows(now, ids, rows) == rows && ObjectRows(now, ids, rows) == rows
    {
    }
  }

  /** The pairs of a cached count and its client under another agency. */
  ghost function Tenants(row: Row, clients: Rows): nat {
    Tally(clients, client => OtherTenant(row, client))
  }

  ghost function PairTally(rows: Rows, clients: Rows): nat {
    if rows == [] then 0 else PairTally(rows[..|rows| - 1], clients) + Tenants(rows[|rows| - 1], clients)
  }

  /** What each check counts: the rows with its fault, or, for the tenant check, their pairs with clients. */
  ghost function PlainCount(j: nat, db: Database): nat {
    if j == 11 then PairTally(Table(db, MatchCountsCache), Table(db, Clients))
    else Tally(Table(db, CheckedTable(j)), row => Objected(j, db, row))
  }

  lemma ChecksNumber()
    ensures |CHECKS| == 19
    ensures forall j | 0 <= j < 19 && j != 11 :: CHECKS[j].Filter?
    ensures CHECKS[11] == Join(MatchCountsCache, Clients, SAME_CLIENT, OTHER_AGENCY)
  {
  }

  lemma {:induction false} PartnersMeaning(db: Database, row: Row, clients: Rows)
    ensures Partners(SAME_CLIENT, OTHER_AGENCY, db, row, clients) == Tenants(row, clients)
  {
    hide SAME_CLIENT, OTHER_AGENCY, OtherTenant, Eval;
    if clients != [] {
      PartnersMeaning(db, row, clients[..|clients| - 1]);
      TenantMeaning(db, row, clients[|clients| - 1]);
    }
  }

  lemma {:induction false} PairsMeaning(db: Database, rows: Rows, clients: Rows)
    ensures Pairs(SAME_CLIENT, OTHER_AGENCY, db, rows, clients) == PairTally(rows, clients)
  {
    hide SAME_CLIENT, OTHER_AGENCY, Partners, Tenants;
    if rows != [] {
      PairsMeaning(db, rows[..|rows| - 1], clients);
      PartnersMeaning(db, rows[|rows| - 1], clients);
    }
  }

  lemma CountMeaning(j: nat, db: Database)
    requires j < 19
    ensures |CHECKS| == 19 && CheckCount(CHECKS[j], db) == PlainCount(j, db)
  {
    hide CHECKS, Objected, CheckedTable, SAME_CLIENT, OTHER_AGENCY, Count, Tally, Pairs, PairTally, Holds;
    ChecksNumber();
    CheckMeaning(j, db, map[]);
    if j == 11 {
      PairsMeaning(db, Table(db, MatchCountsCache), Table(db, Clients));
    } else {
      forall row
        ensures Holds(CHECKS[j].cond, db, row) <==> Objected(j, db, row)
      {
        CheckMeaning(j, db, row);
      }
      CountIsTally(CHECKS[j].cond, db, Table(db, CHECKS[j].table), row => Objected(j, db, row));
    }
  }

  /** The nineteen counts and the number of ready objects without bytes. */
  ghost predicate CheckCounts(head: Head, db: Database, counts: seq<nat>) {
    && |counts| == 20
    && (forall j | 0 <= j < 19 :: counts[j] == PlainCount(j, db))
    && counts[19] == Tally(Table(db, StorageObjects), row => Lacking(head, row))
  }

  ghost predicate HasOtherTenant(row: Row, clients: Rows) {
    exists client | client in clients :: OtherTenant(row, client)
  }

  lemma NoTenants(row: Row, clients: Rows)
    ensures Tenants(row, clients) == 0 <==> !HasOtherTenant(row, clients)
  {
    hide OtherTenant;
    TallyNone(clients, client => OtherTenant(row, client));
  }

  lemma {:induction false} NoPairs(rows: Rows, clients: Rows)
    ensures PairTally(rows, clients) == 0 <==> forall row | row in rows :: !HasOtherTenant(row, clients)
  {
    hide Tenants, HasOtherTenant;
    if rows != [] {
      var init, last := rows[..|rows| - 1], rows[|rows| - 1];
      NoPairs(init, clients);
      NoTenants(last, clients);
      assert rows == init + [last];
      assert PairTally(rows, clients) == PairTally(init, clients) + Tenants(last, clients);
      if PairTally(rows, clients) == 0 {
        forall row | row in rows
          ensures !HasOtherTenant(row, clients)
        {
          assert row in init || row == last;
        }
      }
    }
  }

  lemma NoneCounted(j: nat, db: Database)
    requires j < 19
    ensures PlainCount(j, db) == 0 <==> forall row | row in Table(db, CheckedTable(j)) :: !Objected(j, db, row)
  {
    hide OtherTenant, Unmatched, Lost, PairTally, Tally;
    if j == 11 {
      NoPairs(Table(db, MatchCountsCache), Table(db, Clients));
      forall row
        ensures Objected(j, db, row) <==> HasOtherTenant(row, Table(db, Clients))
      {
      }
    } else {
      TallyNone(Table(db, CheckedTable(j)), row => Objected(j, db, row));
    }
  }

  lemma CleanByCounts(head: Head, db: Database, counts: seq<nat>)
    requires CheckCounts(head, db, counts)
    ensures (forall count | count in counts :: count == 0) <==> Clean(head, db)
  {
    hide Objected, PlainCount, Lacking, CheckedTable, Tally;
    forall j | 0 <= j < 19
      ensures PlainCount(j, db) == 0 <==> forall row | row in Table(db, CheckedTable(j)) :: !Objected(j, db, row)
    {
      NoneCounted(j, db);
    }
    TallyNone(Table(db, StorageObjects), row => Lacking(head, row));
    if forall count | count in counts :: count == 0 {
      forall j | 0 <= j < |counts|
        ensures counts[j] == 0
      {
        assert counts[j] in counts;
      }
    }
  }

  lemma ApplyNeedsSchema(g: Guards)
    ensures g.apply && g.missingSchema ==> Refusal(g).Some?
    ensures !g.apply ==> Refusal(g).None?
  {
  }

  /***** The guards *****/

  /** What the command line and the environment say. */
  datatype Guards = Guards(apply: bool, confirmed: bool, allowOtherDatabase: bool, missingSchema: bool,
                           strict: bool, environment: string, host: string, database: string)

  datatype Why = NotConfirmed | SchemaMissing | StrictConfig | ProductionLike | RemoteHost | OtherDatabase

  predicate IsLocalHost(host: string) {
    || host in {"", "localhost", "127.0.0.1", "::1", "db", "postgres", "host.docker.internal", "projectc22-db-1"}
    || (|host| >= 16 && host[|host| - 16..] == ".docker.internal")
  }

  /** `_assert_apply_allowed`: None lets the run go on. */
  function Refusal(g: Guards): Option<Why> {
    if !g.apply then None
    else if !g.confirmed then Some(NotConfirmed)
    else if g.missingSchema then Some(SchemaMissing)
    else if g.strict then Some(StrictConfig)
    else if g.environment in {"prod", "production", "staging", "stage"} then Some(ProductionLike)
    else if !IsLocalHost(g.host) then Some(RemoteHost)
    else if g.database != "immoapp" && !g.allowOtherDatabase then Some(OtherDatabase)
    else None
  }

  /** Local are this machine under its names, the known containers, and everything below `docker.internal`. */
  lemma LocalHosts(host: string, prefix: string)
    ensures IsLocalHost(prefix + ".docker.internal")
    ensures IsLocalHost(host) <==>
            || host == "" || host == "localhost" || host == "127.0.0.1" || host == "::1" || host == "db" || host == "postgres"
            || host == "host.docker.internal" || host == "projectc22-db-1"
            || (|host| >= 16 && host == host[..|host| - 16] + ".docker.internal")
  {
    var inside := prefix + ".docker.internal";
    assert inside[|inside| - 16..] == ".docker.internal";
    if |host| >= 16 {
      assert host == host[..|host| - 16] + host[|host| - 16..];
    }
  }

  /** Applying is allowed only when confirmed, with a complete schema, on a local database of a development environment. */
  lemma ApplyAllowed(g: Guards)
    requires g.apply
    ensures Refusal(g).None? <==>
            && g.confirmed && !g.missingSchema && !g.strict
            && g.environment != "prod" && g.environment != "production" && g.environment != "staging" && g.environment != "stage"
            && IsLocalHost(g.host) && (g.database == "immoapp" || g.allowOtherDatabase)
  {
    hide IsLocalHost;
  }
}
