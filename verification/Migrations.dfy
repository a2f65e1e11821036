/**
 * Two checkers of Django migrations: no blind DDL on Alembic-owned tables
 * (scripts/verify_no_blind_django_ddl_for_alembic_owned_tables.py), and state-only mirror migrations
 * (scripts/verify_state_only_mirror_contract.py), against what a migration executes on the database.
 */
module Migrations {
  import opened Outcomes
  import opened Text

  /** The class names in `_PHYSICAL_DDL_OPERATION_TYPES`, without `CreateModel`. */
  datatype DdlKind =
    | DeleteModel | AddField | RemoveField | AlterField | RenameField | RenameModel
    | AddIndex | RemoveIndex | AddConstraint | RemoveConstraint

  type Table = name: string | name != "" witness "t"

  /**
   * A migration operation. `touches` are the database tables that executing it changes; the checker does not see them.
   * It sees the class and, of a model DDL operation, the `model_name` attribute if there is one (deleting or renaming a
   * model has none).
   */
  datatype Operation =
    | CreateModel(name: string, touches: set<Table>)
    | ModelDdl(kind: DdlKind, modelName: Option<string>, touches: set<Table>)
    | RunSQL(touches: set<Table>)
    | Unlisted(className: string, touches: set<Table>)
    | Separate(database: seq<Operation>, state: seq<Operation>)

  /** What the checker looks up: the tables of today's models by label, and the same by lower-case label. */
  datatype Registry = Registry(app: string, tables: map<string, string>, lowerTables: map<string, string>)

  function DefaultTableName(app: string, model: string): string {
    app + "_" + Lower(model)
  }

  /** The table of a model, found by lower-case label. */
  function TableOfModel(reg: Registry, model: string): string {
    var key := Lower(reg.app + "." + model);
    if key in reg.lowerTables then reg.lowerTables[key] else DefaultTableName(reg.app, model)
  }

  /** `_table_name_for_operation`, on the operations that are physical DDL. */
  function TableNameForOperation(reg: Registry, op: Operation): Option<string> {
    match op
    case CreateModel(name, _) =>
      var key := reg.app + "." + name;
      Some(if key in reg.tables then reg.tables[key] else DefaultTableName(reg.app, name))
    case ModelDdl(_, modelName, _) =>
      if modelName.None? || modelName.value == "" then None else Some(TableOfModel(reg, modelName.value))
    case _ => None
  }

  /** The lower-case labels give the tables of the labels. */
  ghost predicate SameTables(reg: Registry) {
    forall full | full in reg.tables :: Lower(full) in reg.lowerTables && reg.lowerTables[Lower(full)] == reg.tables[full]
  }

  /** A model of today is looked up under its own table, in any letter case; creating one needs its exact name. */
  lemma LookupMeaning(reg: Registry, model: string, spelt: string, kind: DdlKind, touches: set<Table>)
    requires SameTables(reg) && Lower(spelt) == Lower(model)
    ensures reg.app + "." + model in reg.tables ==>
              TableNameForOperation(reg, CreateModel(model, touches)) == Some(reg.tables[reg.app + "." + model]) &&
              (spelt != "" ==>
                 TableNameForOperation(reg, ModelDdl(kind, Some(spelt), touches)) == Some(reg.tables[reg.app + "." + model]))
    ensures reg.app + "." + model !in reg.tables ==>
              TableNameForOperation(reg, CreateModel(model, touches)) == Some(reg.app + "_" + Lower(model))
    ensures spelt != "" && Lower(reg.app + "." + model) !in reg.lowerTables ==>
              TableNameForOperation(reg, ModelDdl(kind, Some(spelt), touches)) == Some(reg.app + "_" + Lower(model))
  {
    var full := reg.app + "." + model;
    assert Lower(full) == Lower(reg.app + ".") + Lower(model) == Lower(reg.app + "." + spelt);
  }

  datatype Context = Plain | Database | State

  /** The offending operation and its table. */
  datatype Issue = Issue(op: Operation, table: string)

  /** What one operation outside any wrapper is reported for, `owned` being the tables Alembic owns. */
  function Offence(reg: Registry, owned: set<string>, op: Operation): seq<Issue> {
    if op.CreateModel? || op.ModelDdl? then
      match TableNameForOperation(reg, op)
      case None => []
      case Some(table) => if table != "" && table in owned then [Issue(op, table)] else []
    else []
  }

  /** The issues a visit adds. */
  function IssuesOf(reg: Registry, owned: set<string>, op: Operation, context: Context): seq<Issue>
    decreases op, 0
  {
    match op
    case Separate(database, state) => IssuesAll(reg, owned, database, Database) + IssuesAll(reg, owned, state, State)
    case _ => if context == State then [] else Offence(reg, owned, op)
  }

  function IssuesAll(reg: Registry, owned: set<string>, ops: seq<Operation>, context: Context): seq<Issue>
    decreases ops, 1
  {
    if ops == [] then [] else IssuesOf(reg, owned, ops[0], context) + IssuesAll(reg, owned, ops[1..], context)
  }

  lemma IssuesNext(reg: Registry, owned: set<string>, ops: seq<Operation>, k: nat, context: Context)
    requires k < |ops|
    ensures IssuesAll(reg, owned, ops[k..], context) ==
            IssuesOf(reg, owned, ops[k], context) + IssuesAll(reg, owned, ops[k + 1..], context)
  {
    hide IssuesOf;
    assert ops[k..][1..] == ops[k + 1..] && ops[k] == ops[k..][0];
  }

  lemma NoIssuesLeft(reg: Registry, owned: set<string>, ops: seq<Operation>, context: Context)
    requires ops == []
    ensures IssuesAll(reg, owned, ops, context) == []
  {
  }

  /** The shared `issues` list of `collect_blind_ddl_issues_for_operations`. */
  class Collector {
    var issues: seq<Issue>

    constructor ()
      ensures issues == []
    {
      issues := [];
    }

    /** The inner `visit`. */
    method Visit(reg: Registry, owned: set<string>, op: Operation, context: Context)
      modifies this
      ensures issues == old(issues) + IssuesOf(reg, owned, op, context)
      decreases op, 0
    {
      if op.Separate? {
        VisitAll(reg, owned, op.database, Database);
        VisitAll(reg, owned, op.state, State);
      } else if op.CreateModel? || op.ModelDdl? {
        var table := TableNameForOperation(reg, op);
        if table.None? || table.value == "" || table.value !in owned || context == State {
          return;
        }
        issues := issues + [Issue(op, table.value)];
      }
    }

    /** A loop of `visit` calls. */
    method VisitAll(reg: Registry, owned: set<string>, ops: seq<Operation>, context: Context)
      modifies this
      ensures issues == old(issues) + IssuesAll(reg, owned, ops, context)
      decreases ops, 1
    {
      hide IssuesOf, IssuesAll;
      ghost var all := IssuesAll(reg, owned, ops, context);
      assert ops[0..] == ops;
      for k := 0 to |ops|
        invariant issues + IssuesAll(reg, owned, ops[k..], context) == old(issues) + all
      {
        IssuesNext(reg, owned, ops, k, context);
        Visit(reg, owned, ops[k], context);
      }
      NoIssuesLeft(reg, owned, ops[|ops|..], context);
    }
  }

  /** `collect_blind_ddl_issues_for_operations` */
  method CollectBlindDdlIssues(reg: Registry, owned: set<string>, ops: seq<Operation>) returns (issues: seq<Issue>)
    ensures issues == IssuesAll(reg, owned, ops, Plain)
  {
    var collector := new Collector();
    collector.VisitAll(reg, owned, ops, Plain);
    return collector.issues;
  }

  /***** What a migration executes *****/

  /** The operations that reach the database, in order: of a wrapper only the database side, at any depth. */
  function Executed(op: Operation): seq<Operation>
    decreases op, 0
  {
    match op
    case Separate(database, _) => ExecutedAll(database)
    case _ => [op]
  }

  function ExecutedAll(ops: seq<Operation>): seq<Operation>
    decreases ops, 1
  {
    if ops == [] then [] else Executed(ops[0]) + ExecutedAll(ops[1..])
  }

  function Offences(reg: Registry, owned: set<string>, ops: seq<Operation>): seq<Issue> {
    if ops == [] then [] else Offence(reg, owned, ops[0]) + Offences(reg, owned, ops[1..])
  }

  lemma {:induction false} OffencesConcat(reg: Registry, owned: set<string>, a: seq<Operation>, b: seq<Operation>)
    ensures Offences(reg, owned, a + b) == Offences(reg, owned, a) + Offences(reg, owned, b)
  {
    hide Offence;
    if a == [] {
      assert a + b == b;
    } else {
      OffencesConcat(reg, owned, a[1..], b);
      assert (a + b)[0] == a[0] && (a + b)[1..] == a[1..] + b;
    }
  }

  /***** False alarms: the report against the executed operations *****/

  /** The issues that come from inside the state side of an executed wrapper, of which nothing is executed. */
  function StateSide(reg: Registry, owned: set<string>, op: Operation): seq<Issue>
    decreases op, 0
  {
    match op
    case Separate(database, state) => StateSideAll(reg, owned, database) + IssuesAll(reg, owned, state, State)
    case _ => []
  }

  function StateSideAll(reg: Registry, owned: set<string>, ops: seq<Operation>): seq<Issue>
    decreases ops, 1
  {
    if ops == [] then [] else StateSide(reg, owned, ops[0]) + StateSideAll(reg, owned, ops[1..])
  }

  lemma {:induction false} ReportSizeOne(reg: Registry, owned: set<string>, op: Operation, context: Context)
    requires context != State
    ensures |IssuesOf(reg, owned, op, context)| == |Offences(reg, owned, Executed(op))| + |StateSide(reg, owned, op)|
    ensures StateSide(reg, owned, op) == [] ==> IssuesOf(reg, owned, op, context) == Offences(reg, owned, Executed(op))
    decreases op, 0
  {
    if op.Separate? {
      ReportSize(reg, owned, op.database, Database);
    } else {
      assert Offences(reg, owned, [op]) == Offence(reg, owned, op) + Offences(reg, owned, []);
    }
  }

  lemma {:induction false} ReportSize(reg: Registry, owned: set<string>, ops: seq<Operation>, context: Context)
    requires context != State
    ensures |IssuesAll(reg, owned, ops, context)| ==
            |Offences(reg, owned, ExecutedAll(ops))| + |StateSideAll(reg, owned, ops)|
    ensures StateSideAll(reg, owned, ops) == [] ==>
              IssuesAll(reg, owned, ops, context) == Offences(reg, owned, ExecutedAll(ops))
    decreases ops, 1
  {
    if ops != [] {
      ReportSizeOne(reg, owned, ops[0], context);
      ReportSize(reg, owned, ops[1..], context);
      OffencesConcat(reg, owned, Executed(ops[0]), ExecutedAll(ops[1..]));
    }
  }

  /** Exactness: the report lists the offences of what is executed, in order, exactly when no issue comes from a state side. */
  lemma Exact(reg: Registry, owned: set<string>, ops: seq<Operation>)
    ensures IssuesAll(reg, owned, ops, Plain) == Offences(reg, owned, ExecutedAll(ops)) <==> StateSideAll(reg, owned, ops) == []
  {
    ReportSize(reg, owned, ops, Plain);
  }

  /** No wrapper lies inside the state side of another. */
  predicate PlainState(op: Operation)
    decreases op, 0
  {
    op.Separate? ==> PlainStateAll(op.database) && forall nested | nested in op.state :: !nested.Separate?
  }

  predicate PlainStateAll(ops: seq<Operation>)
    decreases ops, 1
  {
    ops == [] || (PlainState(ops[0]) && PlainStateAll(ops[1..]))
  }

  lemma {:induction false} StateSilent(reg: Registry, owned: set<string>, ops: seq<Operation>)
    requires forall op | op in ops :: !op.Separate?
    ensures IssuesAll(reg, owned, ops, State) == []
  {
    if ops != [] {
      assert ops[0] in ops && forall op | op in ops[1..] :: op in ops;
      StateSilent(reg, owned, ops[1..]);
    }
  }

  /** Only a wrapper inside a state side can raise a false alarm. */
  lemma {:induction false} PlainStateSilent(reg: Registry, owned: set<string>, ops: seq<Operation>)
    requires PlainStateAll(ops)
    ensures StateSideAll(reg, owned, ops) == []
    decreases ops
  {
    if ops != [] {
      if ops[0].Separate? {
        PlainStateSilent(reg, owned, ops[0].database);
        StateSilent(reg, owned, ops[0].state);
      }
      PlainStateSilent(reg, owned, ops[1..]);
    }
  }

  /** Such a wrapper does: it is reported although nothing of it is executed. */
  lemma NestedStateReported(reg: Registry, owned: set<string>, op: Operation, issue: Issue)
    requires !op.Separate? && issue in Offence(reg, owned, op)
    ensures var ops := [Separate([], [Separate([op], [])])];
            ExecutedAll(ops) == [] && issue in IssuesAll(reg, owned, ops, Plain)
  {
    var inner, none: seq<Operation> := Separate([op], []), [];
    var outer := Separate([], [inner]);
    assert [op][1..] == none && [inner][1..] == none && [outer][1..] == none;
    assert IssuesAll(reg, owned, [op], Database) == IssuesOf(reg, owned, op, Database) + IssuesAll(reg, owned, none, Database);
    assert IssuesAll(reg, owned, [inner], State) == IssuesOf(reg, owned, inner, State) + IssuesAll(reg, owned, none, State);
    assert IssuesAll(reg, owned, [outer], Plain) == IssuesOf(reg, owned, outer, Plain) + IssuesAll(reg, owned, none, Plain);
    assert ExecutedAll([outer]) == Executed(outer) + ExecutedAll(none);
  }

  /***** Soundness: the report against the tables that are really touched *****/

  /** The tables the executed operations change. */
  function Touched(ops: seq<Operation>): set<string>
    decreases ops
  {
    if ops == [] then {}
    else
      (match ops[0]
       case Separate(database, _) => Touched(database)
       case op => op.touches) + Touched(ops[1..])
  }

  /** It is what the operations that reach the database touch. */
  lemma {:induction false} TouchedByExecuted(ops: seq<Operation>, table: string)
    ensures table in Touched(ops) <==> exists op | op in ExecutedAll(ops) :: !op.Separate? && table in op.touches
    decreases ops
  {
    if ops != [] {
      TouchedByExecuted(ops[1..], table);
      if ops[0].Separate? {
        TouchedByExecuted(ops[0].database, table);
      }
      assert forall op | op in Executed(ops[0]) :: op in ExecutedAll(ops);
      assert forall op | op in ExecutedAll(ops[1..]) :: op in ExecutedAll(ops);
    }
  }

  /** The table the checker looks up for an operation of a listed class, if it can tell. */
  function LookedUp(reg: Registry, op: Operation): set<string> {
    match TableNameForOperation(reg, op)
    case None => {}
    case Some(table) => if table == "" then {} else {table}
  }

  /** The tables it looks up outside state sides; a wrapper inside a state side leads it out again. */
  function Seen(reg: Registry, ops: seq<Operation>, context: Context): set<string>
    decreases ops
  {
    if ops == [] then {}
    else
      (match ops[0]
       case Separate(database, state) => Seen(reg, database, Database) + Seen(reg, state, State)
       case op => if context == State then {} else LookedUp(reg, op)) + Seen(reg, ops[1..], context)
  }

  lemma {:induction false} ReportedTable(reg: Registry, owned: set<string>, ops: seq<Operation>, context: Context, table: string)
    ensures (exists issue | issue in IssuesAll(reg, owned, ops, context) :: issue.table == table) <==>
            table in Seen(reg, ops, context) && table in owned
    decreases ops
  {
    if ops != [] {
      ReportedTable(reg, owned, ops[1..], context, table);
      if ops[0].Separate? {
        ReportedTable(reg, owned, ops[0].database, Database, table);
        ReportedTable(reg, owned, ops[0].state, State, table);
      } else {
        OffenceTable(reg, owned, ops[0], table);
      }
      ConcatIssues(IssuesOf(reg, owned, ops[0], context), IssuesAll(reg, owned, ops[1..], context), table);
    }
  }

  /** A clean report means that no table looked up is owned. */
  lemma CleanReport(reg: Registry, owned: set<string>, ops: seq<Operation>)
    ensures IssuesAll(reg, owned, ops, Plain) == [] <==> Seen(reg, ops, Plain) !! owned
  {
    var issues := IssuesAll(reg, owned, ops, Plain);
    if issues != [] {
      assert issues[0] in issues;
      ReportedTable(reg, owned, ops, Plain, issues[0].table);
    }
    forall table | table in Seen(reg, ops, Plain) && table in owned
      ensures issues != []
    {
      ReportedTable(reg, owned, ops, Plain, table);
    }
  }

  /**
   * When a clean report can be relied on: whatever tables Alembic owns, it means that none of them is touched, exactly
   * when every table the migration touches is among those the checker looks up.
   */
  lemma Reliable(reg: Registry, ops: seq<Operation>)
    ensures (forall owned :: IssuesAll(reg, owned, ops, Plain) == [] ==> Touched(ops) !! owned) <==>
            Touched(ops) <= Seen(reg, ops, Plain)
  {
    hide IssuesAll, Touched, Seen;
    if Touched(ops) <= Seen(reg, ops, Plain) {
      forall owned | IssuesAll(reg, owned, ops, Plain) == []
        ensures Touched(ops) !! owned
      {
        CleanReport(reg, owned, ops);
      }
    } else {
      var table :| table in Touched(ops) && table !in Seen(reg, ops, Plain);
      var owned := {table};
      CleanReport(reg, owned, ops);
      assert table in Touched(ops) && table in owned;
    }
  }

  /** And its verdict is right both ways exactly when these are the same tables. */
  lemma Decisive(reg: Registry, ops: seq<Operation>)
    ensures (forall owned :: IssuesAll(reg, owned, ops, Plain) == [] <==> Touched(ops) !! owned) <==>
            Touched(ops) == Seen(reg, ops, Plain)
  {
    hide IssuesAll, Touched, Seen;
    if Touched(ops) == Seen(reg, ops, Plain) {
      forall owned
        ensures IssuesAll(reg, owned, ops, Plain) == [] <==> Touched(ops) !! owned
      {
        CleanReport(reg, owned, ops);
      }
    } else {
      var table :| (table in Touched(ops)) != (table in Seen(reg, ops, Plain));
      var owned := {table};
      CleanReport(reg, owned, ops);
      assert Touched(ops) !! owned <==> table !in Touched(ops);
      assert Seen(reg, ops, Plain) !! owned <==> table !in Seen(reg, ops, Plain);
    }
  }

  /** The checker's lookup gives what the operation touches. */
  predicate Traced(reg: Registry, op: Operation) {
    !op.Separate? && op.touches == LookedUp(reg, op)
  }

  /** Operation by operation: what the checker traces, it judges rightly, however deep the nesting. */
  lemma {:induction false} Sound(reg: Registry, owned: set<string>, ops: seq<Operation>, context: Context, op: Operation)
    requires context != State && op in ExecutedAll(ops) && Traced(reg, op)
    ensures forall table | table in op.touches && table in owned :: Issue(op, table) in IssuesAll(reg, owned, ops, context)
    decreases ops
  {
    if op !in Executed(ops[0]) {
      Sound(reg, owned, ops[1..], context, op);
    } else if ops[0].Separate? {
      Sound(reg, owned, ops[0].database, Database, op);
    }
  }

  /** If everything executed is traced and no wrapper lies in a state side, the verdict is right. */
  lemma {:induction false} TracedIsSeen(reg: Registry, ops: seq<Operation>, context: Context)
    requires context != State && PlainStateAll(ops) && forall op | op in ExecutedAll(ops) :: Traced(reg, op)
    ensures Seen(reg, ops, context) == Touched(ops)
    decreases ops
  {
    if ops != [] {
      assert forall op | op in Executed(ops[0]) :: op in ExecutedAll(ops);
      assert forall op | op in ExecutedAll(ops[1..]) :: op in ExecutedAll(ops);
      TracedIsSeen(reg, ops[1..], context);
      if ops[0].Separate? {
        TracedIsSeen(reg, ops[0].database, Database);
        StateUnseen(reg, ops[0].state);
      } else {
        assert ops[0] in Executed(ops[0]);
      }
    }
  }

  /**
   * The blind spots, on any owned table: an operation without `model_name`, one of a class that is not listed, raw SQL,
   * and a model created under another table than the lookup gives are all executed and not reported.
   */
  lemma BlindSpots(reg: Registry, owned: set<string>, table: Table, name: string, kind: DdlKind, className: string)
    requires table in owned && LookedUp(reg, CreateModel(name, {table})) !! owned
    ensures forall op | op in {ModelDdl(kind, None, {table}), Unlisted(className, {table}), RunSQL({table}), CreateModel(name, {table})} ::
              ExecutedAll([op]) == [op] && table in Touched([op]) && IssuesAll(reg, owned, [op], Plain) == []
  {
    var none: seq<Operation> := [];
    forall op | op in {ModelDdl(kind, None, {table}), Unlisted(className, {table}), RunSQL({table}), CreateModel(name, {table})}
      ensures ExecutedAll([op]) == [op] && table in Touched([op]) && IssuesAll(reg, owned, [op], Plain) == []
    {
      assert [op][1..] == none;
      assert Touched([op]) == op.touches + Touched(none);
      assert ExecutedAll([op]) == [op] + ExecutedAll(none);
      assert IssuesAll(reg, owned, [op], Plain) == Offence(reg, owned, op) + IssuesAll(reg, owned, none, Plain);
    }
  }

  lemma {:induction false} StateUnseen(reg: Registry, ops: seq<Operation>)
    requires forall op | op in ops :: !op.Separate?
    ensures Seen(reg, ops, State) == {}
  {
    if ops != [] {
      assert ops[0] in ops && forall op | op in ops[1..] :: op in ops;
      StateUnseen(reg, ops[1..]);
    }
  }

  lemma OffenceTable(reg: Registry, owned: set<string>, op: Operation, table: string)
    requires !op.Separate?
    ensures (exists issue | issue in Offence(reg, owned, op) :: issue.table == table) <==> table in LookedUp(reg, op) && table in owned
  {
    if table in LookedUp(reg, op) && table in owned {
      assert Issue(op, table) in Offence(reg, owned, op);
    }
  }

  lemma ConcatIssues(a: seq<Issue>, b: seq<Issue>, table: string)
    ensures (exists issue | issue in a + b :: issue.table == table) <==>
            (exists issue | issue in a :: issue.table == table) || (exists issue | issue in b :: issue.table == table)
  {
  }

  /***** State-only mirror migrations *****/

  /** A state-only mirror contract; an empty text is an unset field. */
  datatype Contract = Contract(table: string, migration: string, ormModel: string)

  datatype MirrorIssue =
    | MigrationMissing(id: string) | NoOperations(id: string) | NotSeparate(id: string) | NotRunSQL(id: string)
    | NoOrmModel(id: string, contract: Contract) | ModelUnknown(id: string, contract: Contract) | NotCreated(id: string, contract: Contract)

  function DatabaseIssues(id: string, ops: seq<Operation>): seq<MirrorIssue> {
    if ops == [] then [] else DatabaseIssues(id, ops[..|ops| - 1]) + if ops[|ops| - 1].RunSQL? then [] else [NotRunSQL(id)]
  }

  function WrapperIssues(id: string, ops: seq<Operation>): seq<MirrorIssue> {
    if ops == [] then []
    else WrapperIssues(id, ops[..|ops| - 1]) + if ops[|ops| - 1].Separate? then DatabaseIssues(id, ops[|ops| - 1].database) else []
  }

  /** The models the state sides create. */
  function StateModels(ops: seq<Operation>): set<string> {
    set op, nested | op in ops && op.Separate? && nested in op.state && nested.CreateModel? :: nested.name
  }

  /** `models` gives the class name of each ORM model label. */
  function ContractIssue(id: string, contract: Contract, models: map<string, string>, created: set<string>): seq<MirrorIssue> {
    if contract.ormModel == "" then [NoOrmModel(id, contract)]
    else if contract.ormModel !in models then [ModelUnknown(id, contract)]
    else if models[contract.ormModel] !in created then [NotCreated(id, contract)]
    else []
  }

  function ContractIssues(id: string, contracts: seq<Contract>, models: map<string, string>, created: set<string>): seq<MirrorIssue> {
    if contracts == [] then []
    else ContractIssues(id, contracts[..|contracts| - 1], models, created) +
         ContractIssue(id, contracts[|contracts| - 1], models, created)
  }

  /** What one migration and the contracts that name it are reported for. */
  function MigrationIssues(id: string, migrations: map<string, seq<Operation>>, contracts: seq<Contract>, models: map<string, string>): seq<MirrorIssue> {
    if id !in migrations then [MigrationMissing(id)]
    else
      var ops := migrations[id];
      if ops == [] then [NoOperations(id)]
      else if exists op | op in ops :: !op.Separate? then [NotSeparate(id)]
      else WrapperIssues(id, ops) + ContractIssues(id, contracts, models, StateModels(ops))
  }

  function CreatedNames(state: seq<Operation>): set<string> {
    set nested | nested in state && nested.CreateModel? :: nested.name
  }

  /** The loop over `database_operations`. */
  method CheckDatabaseSide(id: string, ops: seq<Operation>) returns (issues: seq<MirrorIssue>)
    ensures issues == DatabaseIssues(id, ops)
  {
    issues := [];
    for k := 0 to |ops|
      invariant issues == DatabaseIssues(id, ops[..k])
    {
      assert ops[..k + 1][..k] == ops[..k];
      if !ops[k].RunSQL? {
        issues := issues + [NotRunSQL(id)];
      }
    }
    assert ops[..|ops|] == ops;
  }

  /** The loop over `state_operations`. */
  method CollectCreated(state: seq<Operation>) returns (created: set<string>)
    ensures created == CreatedNames(state)
  {
    created := {};
    for k := 0 to |state|
      invariant created == CreatedNames(state[..k])
    {
      assert state[..k + 1] == state[..k] + [state[k]];
      if state[k].CreateModel? {
        created := created + {state[k].name};
      }
    }
    assert state[..|state|] == state;
  }

  lemma StateModelsNext(ops: seq<Operation>, k: nat)
    requires k < |ops| && ops[k].Separate?
    ensures StateModels(ops[..k + 1]) == StateModels(ops[..k]) + CreatedNames(ops[k].state)
  {
    assert ops[..k + 1] == ops[..k] + [ops[k]];
    forall name
      ensures name in StateModels(ops[..k + 1]) <==> name in StateModels(ops[..k]) || name in CreatedNames(ops[k].state)
    {
      if name in CreatedNames(ops[k].state) {
        var nested :| nested in ops[k].state && nested.CreateModel? && nested.name == name;
        assert ops[k] in ops[..k + 1];
      }
    }
  }

  lemma WrapperNext(id: string, ops: seq<Operation>, k: nat)
    requires k < |ops| && ops[k].Separate?
    ensures WrapperIssues(id, ops[..k + 1]) == WrapperIssues(id, ops[..k]) + DatabaseIssues(id, ops[k].database)
  {
    assert ops[..k + 1][..k] == ops[..k];
  }

  /** The loop over a migration's wrappers. */
  method CheckWrappers(id: string, ops: seq<Operation>) returns (issues: seq<MirrorIssue>, created: set<string>)
    requires forall op | op in ops :: op.Separate?
    ensures issues == WrapperIssues(id, ops) && created == StateModels(ops)
  {
    hide StateModels, WrapperIssues, DatabaseIssues, CreatedNames;
    issues, created := [], {};
    NoWrappers(id, ops);
    for k := 0 to |ops|
      invariant issues == WrapperIssues(id, ops[..k]) && created == StateModels(ops[..k])
    {
      assert ops[k] in ops;
      var more := CheckDatabaseSide(id, ops[k].database);
      var names := CollectCreated(ops[k].state);
      issues, created := issues + more, created + names;
      WrapperNext(id, ops, k);
      StateModelsNext(ops, k);
    }
    assert ops[..|ops|] == ops;
  }

  lemma NoWrappers(id: string, ops: seq<Operation>)
    ensures WrapperIssues(id, ops[..0]) == [] && StateModels(ops[..0]) == {}
  {
  }

  /** One turn of the main loop of `collect_state_only_mirror_issues`. */
  method CheckMigration(id: string, migrations: map<string, seq<Operation>>, contracts: seq<Contract>, models: map<string, string>)
    returns (issues: seq<MirrorIssue>)
    ensures issues == MigrationIssues(id, migrations, contracts, models)
  {
    hide WrapperIssues, StateModels, ContractIssue;
    if id !in migrations {
      return [MigrationMissing(id)];
    }
    var ops := migrations[id];
    if ops == [] {
      return [NoOperations(id)];
    }
    if exists op | op in ops :: !op.Separate? {
      return [NotSeparate(id)];
    }
    var created;
    issues, created := CheckWrappers(id, ops);
    ghost var wrapper := issues;
    for k := 0 to |contracts|
      invariant issues == wrapper + ContractIssues(id, contracts[..k], models, created)
    {
      assert contracts[..k + 1][..k] == contracts[..k];
      issues := issues + ContractIssue(id, contracts[k], models, created);
    }
    assert contracts[..|contracts|] == contracts;
  }

  function ContractsOf(contracts: seq<Contract>, id: string): seq<Contract> {
    if contracts == [] then []
    else
      var last := contracts[|contracts| - 1];
      ContractsOf(contracts[..|contracts| - 1], id) + if last.migration == id then [last] else []
  }

  function CreatingMigrations(contracts: seq<Contract>): set<string> {
    set contract | contract in contracts && contract.migration != "" :: contract.migration
  }

  lemma ContractsNext(contracts: seq<Contract>, k: nat, id: string)
    requires k < |contracts|
    ensures ContractsOf(contracts[..k + 1], id) == ContractsOf(contracts[..k], id) + if contracts[k].migration == id then [contracts[k]] else []
    ensures id in CreatingMigrations(contracts[..k + 1]) <==>
            id in CreatingMigrations(contracts[..k]) || (id != "" && id == contracts[k].migration)
  {
    assert contracts[..k + 1] == contracts[..k] + [contracts[k]] && contracts[..k + 1][..k] == contracts[..k];
  }

  /** The grouping loop. */
  method GroupContracts(contracts: seq<Contract>) returns (grouped: map<string, seq<Contract>>)
    ensures grouped.Keys == CreatingMigrations(contracts)
    ensures forall id | id in grouped :: grouped[id] == ContractsOf(contracts, id)
  {
    hide ContractsOf, CreatingMigrations;
    grouped := map[];
    NothingGrouped(contracts);
    for k := 0 to |contracts|
      invariant grouped.Keys == CreatingMigrations(contracts[..k]) && "" !in grouped
      invariant forall id | id in grouped :: grouped[id] == ContractsOf(contracts[..k], id)
    {
      var contract := contracts[k];
      forall id
        ensures ContractsOf(contracts[..k + 1], id) == ContractsOf(contracts[..k], id) + if contract.migration == id then [contract] else []
        ensures id in CreatingMigrations(contracts[..k + 1]) <==>
                id in CreatingMigrations(contracts[..k]) || (id != "" && id == contract.migration)
      {
        ContractsNext(contracts, k, id);
      }
      if contract.migration != "" {
        NoneBefore(contracts[..k], contract.migration);
        var group := if contract.migration in grouped then grouped[contract.migration] else [];
        grouped := grouped[contract.migration := group + [contract]];
      }
    }
    assert contracts[..|contracts|] == contracts;
  }

  lemma NothingGrouped(contracts: seq<Contract>)
    ensures CreatingMigrations(contracts[..0]) == {}
  {
  }

  /** The reports of these migrations one after the other. */
  function Reports(order: seq<string>, contracts: seq<Contract>, migrations: map<string, seq<Operation>>, models: map<string, string>)
    : seq<MirrorIssue>
  {
    if order == [] then []
    else
      var last := order[|order| - 1];
      Reports(order[..|order| - 1], contracts, migrations, models) +
      MigrationIssues(last, migrations, ContractsOf(contracts, last), models)
  }

  /** `collect_state_only_mirror_issues`: the reports of the contracts' migrations, in the order of their names. */
  method CollectStateOnlyMirrorIssues(contracts: seq<Contract>, migrations: map<string, seq<Operation>>, models: map<string, string>)
    returns (issues: seq<MirrorIssue>, ghost order: seq<string>)
    ensures IsSorted(order, CreatingMigrations(contracts)) && issues == Reports(order, contracts, migrations, models)
    ensures issues == [] <==>
            forall id | id in CreatingMigrations(contracts) :: MigrationIssues(id, migrations, ContractsOf(contracts, id), models) == []
  {
    hide MigrationIssues, ContractsOf, CreatingMigrations, AtMost;
    var grouped := GroupContracts(contracts);
    issues, order := [], [];
    var todo := grouped.Keys;
    while todo != {}
      invariant todo <= grouped.Keys && IsSorted(order, grouped.Keys - todo)
      invariant forall done, id | done in order && id in todo :: AtMost(done, id)
      invariant issues == Reports(order, contracts, migrations, models)
      decreases |todo|
    {
      LeastExists(todo);
      var id :| id in todo && forall other | other in todo :: AtMost(id, other);
      var more := CheckMigration(id, migrations, grouped[id], models);
      assert (order + [id])[..|order|] == order;
      issues, order, todo := issues + more, order + [id], todo - {id};
    }
    ReportsClean(order, contracts, migrations, models);
  }

  lemma {:induction false} InReports(order: seq<string>, contracts: seq<Contract>, migrations: map<string, seq<Operation>>, models: map<string, string>, issue: MirrorIssue)
    ensures issue in Reports(order, contracts, migrations, models) <==>
            exists id | id in order :: issue in MigrationIssues(id, migrations, ContractsOf(contracts, id), models)
  {
    hide MigrationIssues, ContractsOf;
    if order != [] {
      var init, last := order[..|order| - 1], order[|order| - 1];
      InReports(init, contracts, migrations, models, issue);
      assert order == init + [last];
      assert last in order && forall id | id in init :: id in order;
      if id :| id in order && issue in MigrationIssues(id, migrations, ContractsOf(contracts, id), models) {
        assert id in init || id == last;
      }
    }
  }

  /** A contract that names a migration which is not there is reported. */
  lemma MissingReported(order: seq<string>, contracts: seq<Contract>, migrations: map<string, seq<Operation>>, models: map<string, string>, contract: Contract)
    requires IsSorted(order, CreatingMigrations(contracts))
    requires contract in contracts && contract.migration != "" && contract.migration !in migrations
    ensures MigrationMissing(contract.migration) in Reports(order, contracts, migrations, models)
  {
    hide Reports, AtMost;
    InReports(order, contracts, migrations, models, MigrationMissing(contract.migration));
    assert contract.migration in CreatingMigrations(contracts);
  }

  lemma {:induction false} ReportsClean(order: seq<string>, contracts: seq<Contract>, migrations: map<string, seq<Operation>>, models: map<string, string>)
    ensures Reports(order, contracts, migrations, models) == [] <==>
            forall id | id in order :: MigrationIssues(id, migrations, ContractsOf(contracts, id), models) == []
  {
    hide MigrationIssues, ContractsOf;
    if order != [] {
      var init, last := order[..|order| - 1], order[|order| - 1];
      ReportsClean(init, contracts, migrations, models);
      assert order == init + [last];
      assert last in order && forall id | id in init :: id in order;
      if Reports(order, contracts, migrations, models) == [] {
        forall id | id in order
          ensures MigrationIssues(id, migrations, ContractsOf(contracts, id), models) == []
        {
          assert id in init || id == last;
        }
      }
    }
  }

  lemma {:induction false} NoneBefore(contracts: seq<Contract>, id: string)
    ensures id != "" && id !in CreatingMigrations(contracts) ==> ContractsOf(contracts, id) == []
  {
    if contracts != [] {
      var init, last := contracts[..|contracts| - 1], contracts[|contracts| - 1];
      NoneBefore(init, id);
      assert last in contracts && forall contract | contract in init :: contract in contracts;
      assert id in CreatingMigrations(init) ==> id in CreatingMigrations(contracts);
    }
  }

  lemma {:induction false} DatabaseClean(id: string, ops: seq<Operation>)
    ensures DatabaseIssues(id, ops) == [] <==> forall op | op in ops :: op.RunSQL?
  {
    if ops != [] {
      DatabaseClean(id, ops[..|ops| - 1]);
      assert ops == ops[..|ops| - 1] + [ops[|ops| - 1]];
    }
  }

  lemma {:induction false} WrappersClean(id: string, ops: seq<Operation>)
    requires forall op | op in ops :: op.Separate?
    ensures WrapperIssues(id, ops) == [] <==> forall op | op in ops :: forall nested | nested in op.database :: nested.RunSQL?
  {
    if ops != [] {
      var init, last := ops[..|ops| - 1], ops[|ops| - 1];
      assert ops == init + [last];
      assert last in ops;
      WrappersClean(id, init);
      DatabaseClean(id, last.database);
      if WrapperIssues(id, ops) == [] {
        forall op | op in ops
          ensures forall nested | nested in op.database :: nested.RunSQL?
        {
          assert op in init || op == last;
        }
      }
    }
  }

  /** The contract's model is known and created in state. */
  predicate Mirrored(contract: Contract, models: map<string, string>, created: set<string>) {
    contract.ormModel != "" && contract.ormModel in models && models[contract.ormModel] in created
  }

  lemma {:induction false} ContractsClean(id: string, contracts: seq<Contract>, models: map<string, string>, created: set<string>)
    ensures ContractIssues(id, contracts, models, created) == [] <==> forall contract | contract in contracts :: Mirrored(contract, models, created)
  {
    if contracts != [] {
      var init, last := contracts[..|contracts| - 1], contracts[|contracts| - 1];
      ContractsClean(id, init, models, created);
      assert contracts == init + [last];
      OneContractClean(id, last, models, created);
      if ContractIssues(id, contracts, models, created) == [] {
        forall contract | contract in contracts
          ensures Mirrored(contract, models, created)
        {
          assert contract in init || contract == last;
        }
      }
    }
  }

  lemma OneContractClean(id: string, contract: Contract, models: map<string, string>, created: set<string>)
    ensures ContractIssue(id, contract, models, created) == [] <==> Mirrored(contract, models, created)
  {
  }

  lemma {:induction false} RunSqlLeaves(ops: seq<Operation>)
    requires forall op | op in ops :: op.RunSQL?
    ensures forall leaf | leaf in ExecutedAll(ops) :: leaf.RunSQL?
  {
    if ops != [] {
      assert ops[0] in ops && forall op | op in ops[1..] :: op in ops;
      RunSqlLeaves(ops[1..]);
    }
  }

  lemma {:induction false} WrappersExecuteRunSql(ops: seq<Operation>)
    requires forall op | op in ops :: op.Separate? && forall nested | nested in op.database :: nested.RunSQL?
    ensures forall leaf | leaf in ExecutedAll(ops) :: leaf.RunSQL?
  {
    if ops != [] {
      assert ops[0] in ops && forall op | op in ops[1..] :: op in ops;
      RunSqlLeaves(ops[0].database);
      WrappersExecuteRunSql(ops[1..]);
    }
  }

  /** The state side of one of the wrappers creates a model of this name. */
  ghost predicate CreatedInState(ops: seq<Operation>, name: string) {
    exists op, nested :: op in ops && op.Separate? && nested in op.state && nested.CreateModel? && nested.name == name
  }

  /** The migration has wrappers only, with RunSQL only on their database sides. */
  ghost predicate MirrorShape(ops: seq<Operation>) {
    ops != [] && forall op | op in ops :: op.Separate? && forall nested | nested in op.database :: nested.RunSQL?
  }

  /** The contract names a known model, and the migration creates that model in state. */
  ghost predicate Kept(ops: seq<Operation>, contract: Contract, models: map<string, string>) {
    contract.ormModel != "" && contract.ormModel in models && CreatedInState(ops, models[contract.ormModel])
  }

  lemma StateModelsMeaning(ops: seq<Operation>, name: string)
    ensures name in StateModels(ops) <==> CreatedInState(ops, name)
  {
  }

  /**
   * A migration passes the mirror contract exactly when it consists of wrappers whose database side is RunSQL only,
   * and creates the model of every contract in state; and then all it executes is RunSQL.
   */
  lemma MirrorContract(id: string, migrations: map<string, seq<Operation>>, contracts: seq<Contract>, models: map<string, string>)
    requires id in migrations
    ensures MigrationIssues(id, migrations, contracts, models) == [] <==>
            MirrorShape(migrations[id]) && forall contract | contract in contracts :: Kept(migrations[id], contract, models)
    ensures MigrationIssues(id, migrations, contracts, models) == [] ==>
              forall leaf | leaf in ExecutedAll(migrations[id]) :: leaf.RunSQL?
  {
    hide CreatedInState, StateModels;
    var ops := migrations[id];
    forall contract
      ensures Kept(ops, contract, models) <==> Mirrored(contract, models, StateModels(ops))
    {
      if contract.ormModel in models {
        StateModelsMeaning(ops, models[contract.ormModel]);
      }
    }
    if ops != [] && forall op | op in ops :: op.Separate? {
      WrappersClean(id, ops);
      ContractsClean(id, contracts, models, StateModels(ops));
    }
    if MigrationIssues(id, migrations, contracts, models) == [] {
      WrappersExecuteRunSql(ops);
    }
  }

  lemma {:induction false} ContractsOfMeaning(contracts: seq<Contract>, id: string, contract: Contract)
    ensures contract in ContractsOf(contracts, id) <==> contract in contracts && contract.migration == id
  {
    if contracts != [] {
      var init, last := contracts[..|contracts| - 1], contracts[|contracts| - 1];
      ContractsOfMeaning(init, id, contract);
      assert contracts == init + [last];
    }
  }

  /** Nothing is reported exactly when every contract that names a migration finds it there, well shaped and creating its model. */
  lemma MirrorReport(order: seq<string>, contracts: seq<Contract>, migrations: map<string, seq<Operation>>, models: map<string, string>)
    requires IsSorted(order, CreatingMigrations(contracts))
    ensures Reports(order, contracts, migrations, models) == [] <==>
            forall contract | contract in contracts && contract.migration != "" ::
              && contract.migration in migrations && MirrorShape(migrations[contract.migration])
              && Kept(migrations[contract.migration], contract, models)
  {
    hide MigrationIssues, MirrorShape, Kept, ContractsOf, AtMost;
    ReportsClean(order, contracts, migrations, models);
    forall id | id in order
      ensures MigrationIssues(id, migrations, ContractsOf(contracts, id), models) == [] <==>
              id in migrations && MirrorShape(migrations[id]) &&
              forall contract | contract in contracts && contract.migration == id :: Kept(migrations[id], contract, models)
    {
      forall contract
        ensures contract in ContractsOf(contracts, id) <==> contract in contracts && contract.migration == id
      {
        ContractsOfMeaning(contracts, id, contract);
      }
      if id in migrations {
        MirrorContract(id, migrations, ContractsOf(contracts, id), models);
      } else {
        MissingHasIssue(id, migrations, ContractsOf(contracts, id), models);
      }
    }
    forall contract | contract in contracts && contract.migration != ""
      ensures contract.migration in order
    {
      assert contract.migration in CreatingMigrations(contracts);
    }
    forall id | id in order
      ensures exists contract | contract in contracts :: contract.migration == id && id != ""
    {
      assert id in CreatingMigrations(contracts);
    }
  }

  lemma MissingHasIssue(id: string, migrations: map<string, seq<Operation>>, contracts: seq<Contract>, models: map<string, string>)
    requires id !in migrations
    ensures MigrationIssues(id, migrations, contracts, models) == [MigrationMissing(id)]
  {
  }

  /** A mirror migration passes the blind-DDL checker exactly when no issue comes from a state side. */
  lemma MirrorPassesBlindDdl(reg: Registry, owned: set<string>, id: string, migrations: map<string, seq<Operation>>,
                             contracts: seq<Contract>, models: map<string, string>)
    requires id in migrations && MigrationIssues(id, migrations, contracts, models) == []
    ensures IssuesAll(reg, owned, migrations[id], Plain) == [] <==> StateSideAll(reg, owned, migrations[id]) == []
  {
    hide MigrationIssues;
    MirrorContract(id, migrations, contracts, models);
    ReportSize(reg, owned, migrations[id], Plain);
    RunSqlHarmless(reg, owned, ExecutedAll(migrations[id]));
  }

  lemma {:induction false} RunSqlHarmless(reg: Registry, owned: set<string>, ops: seq<Operation>)
    requires forall op | op in ops :: op.RunSQL?
    ensures Offences(reg, owned, ops) == []
  {
    if ops != [] {
      assert ops[0] in ops && forall op | op in ops[1..] :: op in ops;
      RunSqlHarmless(reg, owned, ops[1..]);
    }
  }
}
