/** The tables and columns that the integrity, repair and restore scripts name. */
module Schema {
  datatype TableName =
    | AuthSecurityEvents | AccountsUser | AccountsAgency | TaskFailures
    | DemandeLocations | Demandes | Locations | OfferLocations | Offers
    | MatchCountsCache | Clients | SurfaceCacheGeneration
    | ImportWorkflowState | ImportReviewGroup | ImportReviewItem | ImportJob
    | ImportAgencyProfile | ImportChunkPhase | ImportChunk
    | CustomLocations | StorageObjects | OfferPhotos

  datatype ColumnName =
    | Id | UserId | AgencyId | DemandeId | LocationId | OfferId | ClientId | JobId | ChunkId
    | Bucket | ObjectKey | Status | DeletedAt | StorageId | DeleteOrigin | UpdatedAt
}

/** The fragment of SQL the scripts use: NULLs, three-valued conditions, EXISTS, and filtered UPDATE and DELETE. */
module Sql {
  import opened Schema

  datatype Tri = Yes | No | Unknown

  function And3(a: Tri, b: Tri): Tri {
    if a == No || b == No then No else if a == Yes && b == Yes then Yes else Unknown
  }

  function Or3(a: Tri, b: Tri): Tri {
    if a == Yes || b == Yes then Yes else if a == No && b == No then No else Unknown
  }

  function Not3(a: Tri): Tri {
    match a
    case Yes => No
    case No => Yes
    case Unknown => Unknown
  }

  /** False below unknown below true. */
  function Level(a: Tri): int {
    match a
    case No => 0
    case Unknown => 1
    case Yes => 2
  }

  /** AND is the smaller, OR the greater, NOT the opposite. */
  lemma ThreeValues(a: Tri, b: Tri)
    ensures Level(And3(a, b)) == (if Level(a) < Level(b) then Level(a) else Level(b))
    ensures Level(Or3(a, b)) == (if Level(a) < Level(b) then Level(b) else Level(a))
    ensures Level(Not3(a)) == 2 - Level(a)
  {
  }

  function Truth(b: bool): Tri {
    if b then Yes else No
  }

  datatype Cell = Null | Int(i: int) | Text(s: string)

  type Row = map<ColumnName, Cell>
  type Rows = seq<Row>
  type Database = map<TableName, Rows>

  /** A column the row does not have reads as NULL. */
  function Get(row: Row, column: ColumnName): Cell {
    if column in row then row[column] else Null
  }

  function Table(db: Database, name: TableName): Rows {
    if name in db then db[name] else []
  }

  /** A column of the filtered row (`t.`) or of the row of the enclosing EXISTS (`p.`). */
  datatype Ref = T(column: ColumnName) | P(column: ColumnName)

  datatype Cond =
    | IsNull(r: Ref)
    | IsNotNull(r: Ref)
    | Eq(a: Ref, b: Ref)
    | Distinct(a: Ref, b: Ref)
    | And(c: Cond, d: Cond)
    | Or(c: Cond, d: Cond)
    | Not(c: Cond)
    | Exists(table: TableName, where: Cond)

  function Value(r: Ref, t: Row, p: Row): Cell {
    match r
    case T(column) => Get(t, column)
    case P(column) => Get(p, column)
  }

  /** `=` is unknown as soon as one side is NULL; `IS DISTINCT FROM` never is. */
  function Equal3(a: Cell, b: Cell): Tri {
    if a == Null || b == Null then Unknown else Truth(a == b)
  }

  function Eval(cond: Cond, db: Database, t: Row, p: Row): Tri {
    match cond
    case IsNull(r) => Truth(Value(r, t, p) == Null)
    case IsNotNull(r) => Truth(Value(r, t, p) != Null)
    case Eq(a, b) => Equal3(Value(a, t, p), Value(b, t, p))
    case Distinct(a, b) => Truth(Value(a, t, p) != Value(b, t, p))
    case And(c, d) => And3(Eval(c, db, t, p), Eval(d, db, t, p))
    case Or(c, d) => Or3(Eval(c, db, t, p), Eval(d, db, t, p))
    case Not(c) => Not3(Eval(c, db, t, p))
    case Exists(table, where) => Truth(exists q | q in Table(db, table) :: Eval(where, db, t, q) == Yes)
  }

  /** A WHERE clause keeps the rows on which its condition is true, not merely not false. */
  predicate Holds(cond: Cond, db: Database, row: Row) {
    Eval(cond, db, row, map[]) == Yes
  }

  /** `SELECT COUNT(*) ... WHERE cond` */
  function Count(cond: Cond, db: Database, rows: Rows): nat {
    if rows == [] then 0
    else Count(cond, db, rows[..|rows| - 1]) + if Holds(cond, db, rows[|rows| - 1]) then 1 else 0
  }

  /** The tables a condition looks into. */
  function Sources(cond: Cond): set<TableName> {
    match cond
    case And(c, d) => Sources(c) + Sources(d)
    case Or(c, d) => Sources(c) + Sources(d)
    case Not(c) => Sources(c)
    case Exists(table, where) => {table} + Sources(where)
    case _ => {}
  }

  function RefColumns(r: Ref): set<ColumnName> {
    if r.T? then {r.column} else {}
  }

  /** The columns of the filtered row a condition reads. */
  function Columns(cond: Cond): set<ColumnName> {
    match cond
    case IsNull(r) => RefColumns(r)
    case IsNotNull(r) => RefColumns(r)
    case Eq(a, b) => RefColumns(a) + RefColumns(b)
    case Distinct(a, b) => RefColumns(a) + RefColumns(b)
    case And(c, d) => Columns(c) + Columns(d)
    case Or(c, d) => Columns(c) + Columns(d)
    case Not(c) => Columns(c)
    case Exists(_, where) => Columns(where)
  }

  /** The conditions joined by OR at the top. */
  function Disjuncts(cond: Cond): set<Cond> {
    if cond.Or? then Disjuncts(cond.c) + Disjuncts(cond.d) else {cond}
  }

  /** A condition depends only on its source tables and on the columns it reads. */
  lemma {:induction false} EvalFrame(cond: Cond, db: Database, db': Database, t: Row, t': Row, p: Row)
    requires forall table | table in Sources(cond) :: Table(db, table) == Table(db', table)
    requires forall column | column in Columns(cond) :: Get(t, column) == Get(t', column)
    ensures Eval(cond, db, t, p) == Eval(cond, db', t', p)
  {
    match cond
    case IsNull(_) =>
    case IsNotNull(_) =>
    case Eq(_, _) =>
    case Distinct(_, _) =>
    case And(c, d) =>
      EvalFrame(c, db, db', t, t', p);
      EvalFrame(d, db, db', t, t', p);
    case Or(c, d) =>
      EvalFrame(c, db, db', t, t', p);
      EvalFrame(d, db, db', t, t', p);
    case Not(c) =>
      EvalFrame(c, db, db', t, t', p);
    case Exists(table, where) =>
      forall q
        ensures Eval(where, db, t, q) == Eval(where, db', t', q)
      {
        EvalFrame(where, db, db', t, t', q);
      }
  }

  /** An OR is true exactly when one of its disjuncts is, in three-valued logic too. */
  lemma {:induction false} HoldsByDisjunct(cond: Cond, db: Database, row: Row)
    ensures Holds(cond, db, row) <==> exists c | c in Disjuncts(cond) :: Holds(c, db, row)
  {
    if cond.Or? {
      HoldsByDisjunct(cond.c, db, row);
      HoldsByDisjunct(cond.d, db, row);
    }
  }

  lemma {:induction false} CountZero(cond: Cond, db: Database, rows: Rows)
    ensures Count(cond, db, rows) == 0 <==> forall row | row in rows :: !Holds(cond, db, row)
  {
    if rows != [] {
      var last := rows[|rows| - 1];
      CountZero(cond, db, rows[..|rows| - 1]);
      assert rows == rows[..|rows| - 1] + [last];
    }
  }
}
