/**
 * Repair by filtered UPDATE and DELETE, in general: what a list of repair steps does to a database, when the order does
 * not matter, and when every integrity check comes out clean.
 */
module Repair {
  import opened Schema
  import opened Sql

  datatype Action = Delete | SetNull(column: ColumnName)

  /** `DELETE FROM table t WHERE cond`, or `UPDATE table t SET column = NULL WHERE cond`. */
  datatype Step = Step(table: TableName, action: Action, cond: Cond)

  function StepRow(s: Step, db: Database, row: Row): Rows {
    if !Holds(s.cond, db, row) then [row]
    else
      match s.action
      case Delete => []
      case SetNull(column) => [row[column := Null]]
  }

  function StepRows(s: Step, db: Database, rows: Rows): Rows {
    if rows == [] then [] else StepRows(s, db, rows[..|rows| - 1]) + StepRow(s, db, rows[|rows| - 1])
  }

  function ApplyStep(s: Step, db: Database): Database {
    if s.table in db then db[s.table := StepRows(s, db, db[s.table])] else db
  }

  function RowCount(s: Step, db: Database): nat {
    Count(s.cond, db, Table(db, s.table))
  }

  function RunSteps(steps: seq<Step>, db: Database): Database {
    if steps == [] then db else ApplyStep(steps[|steps| - 1], RunSteps(steps[..|steps| - 1], db))
  }

  lemma RunNone(run: seq<Step>, db: Database)
    ensures RunSteps(run[..0], db) == db
  {
  }

  lemma RunNext(run: seq<Step>, k: nat, db: Database)
    requires k < |run|
    ensures RunSteps(run[..k + 1], db) == ApplyStep(run[k], RunSteps(run[..k], db))
  {
    assert run[..k + 1][..k] == run[..k];
  }

  /***** The order-free description *****/

  ghost predicate Fires(s: Step, db: Database, table: TableName, row: Row) {
    s.table == table && Holds(s.cond, db, row)
  }

  /** Some DELETE of the set applies to the row. */
  ghost predicate Doomed(steps: set<Step>, db: Database, table: TableName, row: Row) {
    exists s | s in steps :: s.action.Delete? && Fires(s, db, table, row)
  }

  /** Some UPDATE of the set clears this column of the row. */
  ghost predicate Cleared(steps: set<Step>, db: Database, table: TableName, row: Row, column: ColumnName) {
    exists s | s in steps :: s.action == SetNull(column) && Fires(s, db, table, row)
  }

  /** The row with every column cleared that some UPDATE of the set clears. */
  ghost function Mended(steps: set<Step>, db: Database, table: TableName, row: Row): Row {
    map column | column in row :: if Cleared(steps, db, table, row, column) then Null else row[column]
  }

  ghost function RepairedRows(steps: set<Step>, db: Database, table: TableName, rows: Rows): Rows {
    if rows == [] then []
    else
      var last := rows[|rows| - 1];
      RepairedRows(steps, db, table, rows[..|rows| - 1]) +
      if Doomed(steps, db, table, last) then [] else [Mended(steps, db, table, last)]
  }

  /** All conditions read in the original database, all effects at once. */
  ghost function Repaired(steps: set<Step>, db: Database): Database {
    map table | table in db :: RepairedRows(steps, db, table, db[table])
  }

  /***** Independence *****/

  /**
   * No step changes a table that a condition looks into; no step clears a column that another step on the same table
   * reads; and a step that clears a column asks first that the column is not NULL.
   */
  ghost predicate Independent(steps: set<Step>) {
    && (forall s, u | s in steps && u in steps :: u.table !in Sources(s.cond))
    && (forall s, u | s in steps && u in steps && s != u && s.table == u.table && u.action.SetNull? ::
          u.action.column !in Columns(s.cond))
    && (forall s | s in steps && s.action.SetNull? ::
          s.cond.And? && s.cond.c == IsNotNull(T(s.action.column)))
  }

  lemma {:induction false} IdleRows(steps: set<Step>, db: Database, table: TableName, rows: Rows)
    requires forall s, row | s in steps && row in rows :: !Fires(s, db, table, row)
    ensures RepairedRows(steps, db, table, rows) == rows
  {
    hide Fires;
    if rows != [] {
      var init, last := rows[..|rows| - 1], rows[|rows| - 1];
      assert rows == init + [last];
      IdleRows(steps, db, table, init);
      assert Mended(steps, db, table, last) == last;
    }
  }

  lemma UntouchedTable(steps: set<Step>, db: Database, table: TableName, rows: Rows)
    requires forall s | s in steps :: s.table != table
    ensures RepairedRows(steps, db, table, rows) == rows
  {
    forall s, row | s in steps && row in rows
      ensures !Fires(s, db, table, row)
    {
    }
    IdleRows(steps, db, table, rows);
  }

  /** The condition of a step sees no effect of the other steps. */
  lemma ConditionUnaffected(steps: set<Step>, db: Database, done: set<Step>, s: Step, row: Row)
    requires Independent(steps) && done <= steps && s in steps
    ensures var after := Repaired(done, db);
            s !in done ==> (Holds(s.cond, after, Mended(done, db, s.table, row)) <==> Holds(s.cond, db, row))
    ensures var after := Repaired(done, db);
            s in done && s.action.SetNull? ==> !Holds(s.cond, after, Mended(done, db, s.table, row))
    ensures var after := Repaired(done, db);
            s.action.Delete? ==> (Holds(s.cond, after, Mended(done, db, s.table, row)) <==> Holds(s.cond, db, row))
  {
    var after, mended := Repaired(done, db), Mended(done, db, s.table, row);
    forall table | table in Sources(s.cond)
      ensures Table(after, table) == Table(db, table)
    {
      if table in db {
        UntouchedTable(done, db, table, db[table]);
      }
    }
    if s.action.SetNull? && Cleared(done, db, s.table, row, s.action.column) {
      NotNullFirst(s.cond, s.action.column, after, mended);
    } else {
      forall column | column in Columns(s.cond)
        ensures Get(mended, column) == Get(row, column)
      {
      }
      EvalFrame(s.cond, db, after, row, mended, map[]);
    }
  }

  lemma NotNullFirst(cond: Cond, column: ColumnName, db: Database, row: Row)
    requires cond.And? && cond.c == IsNotNull(T(column))
    ensures Get(row, column) == Null ==> !Holds(cond, db, row)
    ensures column in Columns(cond)
  {
    assert Eval(cond.c, db, row, map[]) == Truth(Get(row, column) != Null);
    assert column in Columns(cond.c);
  }

  /** One more step after a set of steps is the larger set of steps. */
  lemma {:induction false} StepAfterRows(steps: set<Step>, db: Database, done: set<Step>, s: Step, rows: Rows)
    requires Independent(steps) && done <= steps && s in steps
    ensures StepRows(s, Repaired(done, db), RepairedRows(done, db, s.table, rows)) ==
            RepairedRows(done + {s}, db, s.table, rows)
  {
    if rows != [] {
      var last, before := rows[|rows| - 1], RepairedRows(done, db, s.table, rows[..|rows| - 1]);
      StepAfterRows(steps, db, done, s, rows[..|rows| - 1]);
      ConditionUnaffected(steps, db, done, s, last);
      StepAfterRow(steps, db, done, s, last);
      if !Doomed(done, db, s.table, last) {
        var mended := Mended(done, db, s.table, last);
        assert (before + [mended])[..|before|] == before;
      } else {
        assert before + [] == before;
      }
    }
  }

  lemma StepAfterRow(steps: set<Step>, db: Database, done: set<Step>, s: Step, row: Row)
    requires Independent(steps) && done <= steps && s in steps
    ensures Doomed(done + {s}, db, s.table, row) <==>
            Doomed(done, db, s.table, row) || (s.action.Delete? && Holds(s.cond, db, row))
    ensures !Doomed(done + {s}, db, s.table, row) ==>
              StepRow(s, Repaired(done, db), Mended(done, db, s.table, row)) == [Mended(done + {s}, db, s.table, row)]
    ensures !Doomed(done, db, s.table, row) && Doomed(done + {s}, db, s.table, row) ==>
              StepRow(s, Repaired(done, db), Mended(done, db, s.table, row)) == []
  {
    hide Independent, Holds, Repaired;
    ConditionUnaffected(steps, db, done, s, row);
    var before, after := Mended(done, db, s.table, row), Mended(done + {s}, db, s.table, row);
    if s in done {
      assert done + {s} == done;
    } else if s.action.SetNull? && Holds(s.cond, db, row) {
      SelfClearing(steps, s);
      NotNullFirst(s.cond, s.action.column, db, row);
      assert s.action.column in row;
      assert Cleared(done + {s}, db, s.table, row, s.action.column);
      assert before[s.action.column := Null] == after;
    } else {
      assert before == after;
    }
  }

  lemma SelfClearing(steps: set<Step>, s: Step)
    requires Independent(steps) && s in steps && s.action.SetNull?
    ensures s.cond.And? && s.cond.c == IsNotNull(T(s.action.column))
  {
  }

  lemma OtherTableRow(db: Database, done: set<Step>, s: Step, table: TableName, row: Row)
    requires s.table != table
    ensures Doomed(done + {s}, db, table, row) <==> Doomed(done, db, table, row)
    ensures Mended(done + {s}, db, table, row) == Mended(done, db, table, row)
  {
    hide Holds;
  }

  lemma {:induction false} OtherTableSame(db: Database, done: set<Step>, s: Step, table: TableName, rows: Rows)
    requires s.table != table
    ensures RepairedRows(done + {s}, db, table, rows) == RepairedRows(done, db, table, rows)
  {
    hide Doomed, Mended;
    if rows != [] {
      OtherTableSame(db, done, s, table, rows[..|rows| - 1]);
      OtherTableRow(db, done, s, table, rows[|rows| - 1]);
    }
  }

  lemma StepAfter(steps: set<Step>, db: Database, done: set<Step>, s: Step)
    requires Independent(steps) && done <= steps && s in steps
    ensures ApplyStep(s, Repaired(done, db)) == Repaired(done + {s}, db)
  {
    var after := Repaired(done + {s}, db);
    forall table | table in db
      ensures ApplyStep(s, Repaired(done, db))[table] == after[table]
    {
      if table == s.table {
        StepAfterRows(steps, db, done, s, db[table]);
      } else {
        OtherTableSame(db, done, s, table, db[table]);
      }
    }
  }

  /** A step counts in the repaired table what it would have counted at first, if no DELETE on its table came before. */
  lemma {:induction false} CountUnaffected(steps: set<Step>, db: Database, done: set<Step>, s: Step, rows: Rows)
    requires Independent(steps) && done <= steps && s in steps && s !in done
    requires forall u | u in done && u.table == s.table :: u.action.SetNull?
    ensures Count(s.cond, Repaired(done, db), RepairedRows(done, db, s.table, rows)) == Count(s.cond, db, rows)
  {
    hide Independent, Holds, Repaired;
    if rows != [] {
      var init, last := rows[..|rows| - 1], rows[|rows| - 1];
      CountUnaffected(steps, db, done, s, init);
      ConditionUnaffected(steps, db, done, s, last);
      assert !Doomed(done, db, s.table, last);
      var before, mended := RepairedRows(done, db, s.table, init), Mended(done, db, s.table, last);
      assert (before + [mended])[..|before|] == before;
    }
  }

  function StepSet(steps: seq<Step>): set<Step> {
    set s | s in steps
  }

  lemma NothingDone(db: Database)
    ensures Repaired({}, db) == db
  {
    forall table | table in db
      ensures RepairedRows({}, db, table, db[table]) == db[table]
    {
      UntouchedTable({}, db, table, db[table]);
    }
  }

  /** Running steps one after the other, in any order and any number of times, gives the order-free result. */
  lemma {:induction false} RunIsRepaired(steps: set<Step>, run: seq<Step>, db: Database)
    requires Independent(steps) && StepSet(run) <= steps
    ensures RunSteps(run, db) == Repaired(StepSet(run), db)
  {
    if run == [] {
      NothingDone(db);
      assert StepSet(run) == {};
    } else {
      var first, last := run[..|run| - 1], run[|run| - 1];
      RunIsRepaired(steps, first, db);
      StepAfter(steps, db, StepSet(first), last);
      assert StepSet(run) == StepSet(first) + {last};
    }
  }

  /** Every rearrangement of the steps reaches the same database. */
  lemma AnyOrder(run: seq<Step>, other: seq<Step>, db: Database)
    requires Independent(StepSet(run)) && multiset(run) == multiset(other)
    ensures RunSteps(run, db) == RunSteps(other, db)
  {
    forall s
      ensures s in StepSet(run) <==> s in StepSet(other)
    {
      assert s in run <==> s in multiset(run);
      assert s in other <==> s in multiset(other);
    }
    assert StepSet(run) == StepSet(other);
    RunIsRepaired(StepSet(run), run, db);
    RunIsRepaired(StepSet(run), other, db);
  }

  lemma {:induction false} RepairedRowOrigin(steps: set<Step>, db: Database, table: TableName, rows: Rows, row: Row)
    ensures row in RepairedRows(steps, db, table, rows) <==>
            exists origin | origin in rows :: !Doomed(steps, db, table, origin) && Mended(steps, db, table, origin) == row
  {
    if rows != [] {
      var last := rows[|rows| - 1];
      RepairedRowOrigin(steps, db, table, rows[..|rows| - 1], row);
      assert rows == rows[..|rows| - 1] + [last];
    }
  }

  /** After the repair no step has anything left to do. */
  lemma NothingLeft(steps: set<Step>, db: Database, s: Step)
    requires Independent(steps) && s in steps
    ensures RowCount(s, Repaired(steps, db)) == 0
  {
    var after := Repaired(steps, db);
    forall row | row in Table(after, s.table)
      ensures !Holds(s.cond, after, row)
    {
      RepairedRowOrigin(steps, db, s.table, Table(db, s.table), row);
      var origin :| origin in Table(db, s.table) && !Doomed(steps, db, s.table, origin) && Mended(steps, db, s.table, origin) == row;
      ConditionUnaffected(steps, db, steps, s, origin);
    }
    CountZero(s.cond, after, Table(after, s.table));
  }

  /** A second run changes nothing, and each of its steps reports no row. */
  lemma SecondRunIdle(run: seq<Step>, db: Database, k: nat)
    requires Independent(StepSet(run)) && k < |run|
    ensures RunSteps(run, RunSteps(run, db)) == RunSteps(run, db)
    ensures RowCount(run[k], RunSteps(run[..k], RunSteps(run, db))) == 0
  {
    var steps := StepSet(run);
    RunIsRepaired(steps, run, db);
    RunTwice(steps, run, run, db);
    RunTwice(steps, run, run[..k], db);
    NothingLeft(steps, db, run[k]);
  }

  lemma RunTwice(steps: set<Step>, run: seq<Step>, again: seq<Step>, db: Database)
    requires Independent(steps) && steps == StepSet(run) && StepSet(again) <= steps
    ensures RunSteps(again, RunSteps(run, db)) == Repaired(steps, db)
  {
    RunConcat(run, again, db);
    RunIsRepaired(steps, run + again, db);
    assert StepSet(run + again) == steps;
  }

  lemma {:induction false} RunConcat(run: seq<Step>, again: seq<Step>, db: Database)
    ensures RunSteps(run + again, db) == RunSteps(again, RunSteps(run, db))
  {
    if again == [] {
      assert run + again == run;
    } else {
      RunConcat(run, again[..|again| - 1], db);
      assert (run + again)[..|run + again| - 1] == run + again[..|again| - 1];
    }
  }

  /** Steps that report no row change nothing. */
  lemma IdleWhenClean(steps: set<Step>, db: Database)
    requires forall s | s in steps :: RowCount(s, db) == 0
    ensures Repaired(steps, db) == db
  {
    hide RowCount;
    forall table | table in db
      ensures RepairedRows(steps, db, table, db[table]) == db[table]
    {
      forall s, row | s in steps && row in db[table]
        ensures !Fires(s, db, table, row)
      {
        NoRowFires(s, db, table, row);
      }
      IdleRows(steps, db, table, db[table]);
    }
  }

  lemma NoRowFires(s: Step, db: Database, table: TableName, row: Row)
    requires RowCount(s, db) == 0 && row in Table(db, table)
    ensures !Fires(s, db, table, row)
  {
    CountZero(s.cond, db, Table(db, s.table));
  }

  lemma {:induction false} StepRowsLength(s: Step, db: Database, rows: Rows)
    ensures |StepRows(s, db, rows)| == |rows| - if s.action.Delete? then Count(s.cond, db, rows) else 0
  {
    if rows != [] {
      StepRowsLength(s, db, rows[..|rows| - 1]);
    }
  }

  /** Conservation: a DELETE shrinks its table by exactly the rows it reports, an UPDATE by none, and no other table changes. */
  lemma StepConserves(s: Step, db: Database, table: TableName)
    ensures |Table(ApplyStep(s, db), table)| ==
            |Table(db, table)| - if table == s.table && s.action.Delete? then RowCount(s, db) else 0
    ensures table != s.table ==> Table(ApplyStep(s, db), table) == Table(db, table)
  {
    if table == s.table && table in db {
      StepRowsLength(s, db, db[table]);
    }
  }

  /***** Checks *****/

  /** `SELECT COUNT(*) FROM table t WHERE cond`, or `FROM table t JOIN other p ON on WHERE cond`. */
  datatype Check =
    | Filter(table: TableName, cond: Cond)
    | Join(table: TableName, other: TableName, on: Cond, cond: Cond)

  predicate Joins(on: Cond, cond: Cond, db: Database, row: Row, other: Row) {
    Eval(And(on, cond), db, row, other) == Yes
  }

  /** The rows of the joined table that pair up with a row. */
  function Partners(on: Cond, cond: Cond, db: Database, row: Row, others: Rows): nat {
    if others == [] then 0
    else Partners(on, cond, db, row, others[..|others| - 1]) +
         if Joins(on, cond, db, row, others[|others| - 1]) then 1 else 0
  }

  function Pairs(on: Cond, cond: Cond, db: Database, rows: Rows, others: Rows): nat {
    if rows == [] then 0
    else Pairs(on, cond, db, rows[..|rows| - 1], others) + Partners(on, cond, db, rows[|rows| - 1], others)
  }

  /** The number a check reports. */
  function CheckCount(c: Check, db: Database): nat {
    match c
    case Filter(table, cond) => Count(cond, db, Table(db, table))
    case Join(table, other, on, cond) => Pairs(on, cond, db, Table(db, table), Table(db, other))
  }

  /** What a check objects to in a row. */
  function Objection(c: Check): Cond {
    match c
    case Filter(_, cond) => cond
    case Join(_, other, on, cond) => Exists(other, And(on, cond))
  }

  ghost predicate Flags(c: Check, db: Database, row: Row) {
    Holds(Objection(c), db, row)
  }

  lemma {:induction false} PartnersZero(on: Cond, cond: Cond, db: Database, row: Row, others: Rows)
    ensures Partners(on, cond, db, row, others) == 0 <==> forall q | q in others :: !Joins(on, cond, db, row, q)
  {
    if others != [] {
      var init, last := others[..|others| - 1], others[|others| - 1];
      PartnersZero(on, cond, db, row, init);
      assert others == init + [last];
      assert Partners(on, cond, db, row, others) ==
             Partners(on, cond, db, row, init) + if Joins(on, cond, db, row, last) then 1 else 0;
      if Partners(on, cond, db, row, others) == 0 {
        forall q | q in others
          ensures !Joins(on, cond, db, row, q)
        {
          assert q in init || q == last;
        }
      }
    }
  }

  lemma {:induction false} PairsZero(on: Cond, cond: Cond, db: Database, rows: Rows, others: Rows)
    ensures Pairs(on, cond, db, rows, others) == 0 <==>
            forall row | row in rows :: Partners(on, cond, db, row, others) == 0
  {
    if rows != [] {
      var init, last := rows[..|rows| - 1], rows[|rows| - 1];
      PairsZero(on, cond, db, init, others);
      assert rows == init + [last];
      assert Pairs(on, cond, db, rows, others) == Pairs(on, cond, db, init, others) + Partners(on, cond, db, last, others);
      if Pairs(on, cond, db, rows, others) == 0 {
        forall row | row in rows
          ensures Partners(on, cond, db, row, others) == 0
        {
          assert row in init || row == last;
        }
      }
    }
  }

  lemma PartnersFlag(c: Check, db: Database, row: Row)
    requires c.Join?
    ensures Flags(c, db, row) <==> exists q | q in Table(db, c.other) :: Joins(c.on, c.cond, db, row, q)
  {
    assert Eval(Objection(c), db, row, map[]) ==
           Truth(exists q | q in Table(db, c.other) :: Eval(And(c.on, c.cond), db, row, q) == Yes);
  }

  /** A check reports zero exactly when it flags no row, also when it counts joined pairs. */
  lemma CheckZero(c: Check, db: Database)
    ensures CheckCount(c, db) == 0 <==> forall row | row in Table(db, c.table) :: !Flags(c, db, row)
  {
    match c
    case Filter(table, cond) =>
      CountZero(cond, db, Table(db, table));
    case Join(table, other, on, cond) =>
      PairsZero(on, cond, db, Table(db, table), Table(db, other));
      forall row | row in Table(db, table)
        ensures Partners(on, cond, db, row, Table(db, other)) == 0 <==> !Flags(c, db, row)
      {
        PartnersZero(on, cond, db, row, Table(db, other));
        PartnersFlag(c, db, row);
      }
  }

  /** What the steps act on is what the checks on the same table object to, disjunct by disjunct. */
  ghost predicate Aligned(steps: set<Step>, checks: set<Check>) {
    && (forall c | c in checks :: exists s | s in steps :: s.table == c.table && Disjuncts(Objection(c)) <= Disjuncts(s.cond))
    && (forall s, d | s in steps && d in Disjuncts(s.cond) ::
          exists c | c in checks :: c.table == s.table && d in Disjuncts(Objection(c)))
  }

  lemma FlagImpliesStep(c: Check, s: Step, db: Database, row: Row)
    requires Disjuncts(Objection(c)) <= Disjuncts(s.cond) && Flags(c, db, row)
    ensures Holds(s.cond, db, row)
  {
    HoldsByDisjunct(Objection(c), db, row);
    HoldsByDisjunct(s.cond, db, row);
  }

  /** Completeness: after the repair every check reports zero. */
  lemma Complete(steps: set<Step>, checks: set<Check>, db: Database, c: Check)
    requires Independent(steps) && Aligned(steps, checks) && c in checks
    ensures CheckCount(c, Repaired(steps, db)) == 0
  {
    var after := Repaired(steps, db);
    var s :| s in steps && s.table == c.table && Disjuncts(Objection(c)) <= Disjuncts(s.cond);
    NothingLeft(steps, db, s);
    CountZero(s.cond, after, Table(after, s.table));
    forall row | row in Table(after, c.table)
      ensures !Flags(c, after, row)
    {
      if Flags(c, after, row) {
        FlagImpliesStep(c, s, after, row);
      }
    }
    CheckZero(c, after);
  }

  lemma CheckOfDisjunct(steps: set<Step>, checks: set<Check>, s: Step, d: Cond) returns (c: Check)
    requires Aligned(steps, checks) && s in steps && d in Disjuncts(s.cond)
    ensures c in checks && c.table == s.table && d in Disjuncts(Objection(c))
  {
    hide Disjuncts, Objection;
    c :| c in checks && c.table == s.table && d in Disjuncts(Objection(c));
  }

  lemma DoomedIsFlagged(steps: set<Step>, checks: set<Check>, db: Database, table: TableName, row: Row)
    requires Aligned(steps, checks) && Doomed(steps, db, table, row)
    ensures exists c | c in checks :: c.table == table && Flags(c, db, row)
  {
    hide Disjuncts, Objection, Holds, Aligned;
    var s :| s in steps && s.action.Delete? && Fires(s, db, table, row);
    HoldsByDisjunct(s.cond, db, row);
    var d :| d in Disjuncts(s.cond) && Holds(d, db, row);
    var c := CheckOfDisjunct(steps, checks, s, d);
    HoldsByDisjunct(Objection(c), db, row);
  }

  lemma FlaggedIsDoomed(steps: set<Step>, checks: set<Check>, db: Database, c: Check, row: Row)
    requires Aligned(steps, checks) && forall s | s in steps && s.table == c.table :: s.action.Delete?
    requires c in checks && Flags(c, db, row)
    ensures Doomed(steps, db, c.table, row)
  {
    hide Disjuncts, Objection;
    var s :| s in steps && s.table == c.table && Disjuncts(Objection(c)) <= Disjuncts(s.cond);
    FlagImpliesStep(c, s, db, row);
    assert Fires(s, db, c.table, row);
  }

  /** Minimality: on a table without UPDATE steps, a row disappears exactly when some check on the table flags it. */
  lemma Minimal(steps: set<Step>, checks: set<Check>, db: Database, table: TableName, row: Row)
    requires Aligned(steps, checks) && forall s | s in steps && s.table == table :: s.action.Delete?
    ensures Doomed(steps, db, table, row) <==> exists c | c in checks :: c.table == table && Flags(c, db, row)
    ensures Mended(steps, db, table, row) == row
  {
    hide Aligned, Flags;
    if Doomed(steps, db, table, row) {
      DoomedIsFlagged(steps, checks, db, table, row);
    }
    forall c | c in checks && c.table == table && Flags(c, db, row)
      ensures Doomed(steps, db, table, row)
    {
      FlaggedIsDoomed(steps, checks, db, c, row);
    }
    assert Mended(steps, db, table, row) == row;
  }
}
