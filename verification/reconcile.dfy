/** Schema reconciliation (`NewBaseModelWithCreated`, basemodel.go). The Go code
    interleaves decisions with DDL; the model separates the two. Each phase
    first computes a plan, the statements it would issue in order plus the
    error it would end with, from the catalog it read. Then `Execute` runs the
    plan against the engine and stops at the first statement the engine
    rejects. The two agree because no phase reads the catalog again while it
    issues statements. */
module Reconcile {
  import opened Results
  import opened Strings
  import opened Collections
  import opened Errors
  import opened Engine
  import opened Indexes
  import opened Columns
  import opened Model

  /** The schema statements the reconciler issues. */
  datatype Ddl =
    | CreateTable(table: string, columns: seq<ColumnDef>)
    | AddColumn(table: string, name: string, qlType: string)
    | DropColumn(table: string, name: string)
    | CreateIndex(table: string, index: Index)
    | DropIndex(name: string)

  /** The text sent to the engine; each statement is its own transaction. */
  function Render(d: Ddl): string {
    match d
    case CreateTable(t, cols) => CreateTableSQL(t, cols)
    case AddColumn(t, name, qlType) => AddColumnSQL(t, name, qlType)
    case DropColumn(t, name) => DropColumnSQL(t, name)
    case CreateIndex(t, idx) => CreateIndexSQL(t, idx)
    case DropIndex(name) => DropIndexSQL(name)
  }

  /** What a phase intends: its statements in order, and the error it returns
      after them (when it does not stop earlier on an engine error). */
  datatype Plan = Plan(statements: seq<Ddl>, stop: Option<Error>)

  /** Run `q` after `p`, unless `p` already ends with an error. */
  function Then(p: Plan, q: Plan): Plan {
    if p.stop.Some? then p else Plan(p.statements + q.statements, q.stop)
  }

  /** The statements of a phase that the engine accepted, and how the phase
      ended: with the engine rejecting a statement (the statement and the
      engine's error), or after the last statement. */
  datatype Run = Run(executed: seq<Ddl>, rejected: Option<(Ddl, string)>)

  /** Issue the statements in order. `engine(k, d)` is the engine's answer to
      statement `d`, sent (as `Render(d)`) as the `k`-th statement overall; any
      oracle on statement texts is one of these. The first rejected statement
      ends the phase. */
  function Execute(statements: seq<Ddl>, engine: (nat, Ddl) -> Answer<Row>, start: nat): (r: Run)
    ensures r.executed <= statements
    ensures forall k :: 0 <= k < |r.executed| ==> engine(start + k, statements[k]).Sets?
    ensures r.rejected.None? <==> |r.executed| == |statements|
    ensures r.rejected.Some? ==>
      var k := |r.executed|;
      engine(start + k, statements[k]).Failed?
      && r.rejected.value == (statements[k], engine(start + k, statements[k]).cause)
    decreases |statements|
  {
    if |statements| == 0 then Run([], None)
    else
      var d := statements[0];
      match engine(start, d)
      case Failed(cause) => Run([], Some((d, cause)))
      case Sets(_) =>
        var rest := Execute(statements[1..], engine, start + 1);
        ExecuteStep(statements, engine, start, rest);
        Run([d] + rest.executed, rest.rejected)
  }

  /** An accepted first statement in front of the run of the rest. */
  lemma ExecuteStep(statements: seq<Ddl>, engine: (nat, Ddl) -> Answer<Row>, start: nat, rest: Run)
    requires |statements| > 0 && engine(start, statements[0]).Sets?
    requires rest.executed <= statements[1..]
    requires forall k :: 0 <= k < |rest.executed| ==> engine(start + 1 + k, statements[1..][k]).Sets?
    requires rest.rejected.None? <==> |rest.executed| == |statements| - 1
    requires rest.rejected.Some? ==>
      var k := |rest.executed|;
      engine(start + 1 + k, statements[1..][k]).Failed?
      && rest.rejected.value == (statements[1..][k], engine(start + 1 + k, statements[1..][k]).cause)
    ensures var r := Run([statements[0]] + rest.executed, rest.rejected);
      && r.executed <= statements
      && (forall k :: 0 <= k < |r.executed| ==> engine(start + k, statements[k]).Sets?)
      && (r.rejected.None? <==> |r.executed| == |statements|)
      && (r.rejected.Some? ==>
        var k := |r.executed|;
        engine(start + k, statements[k]).Failed?
        && r.rejected.value == (statements[k], engine(start + k, statements[k]).cause))
  {
    var r := Run([statements[0]] + rest.executed, rest.rejected);
    forall k | 1 <= k < |r.executed| ensures engine(start + k, statements[k]).Sets? {
      assert statements[k] == statements[1..][k - 1] && start + k == start + 1 + (k - 1);
    }
    if rest.rejected.Some? {
      var k := |rest.executed|;
      assert statements[1 + k] == statements[1..][k] && start + (1 + k) == start + 1 + k;
    }
    assert statements == [statements[0]] + statements[1..];
  }

  /** The error a phase returns: the engine's, wrapped with the text of the
      rejected statement, or else the plan's own. */
  function Failure(run: Run, stop: Option<Error>): Option<Error> {
    match run.rejected
    case Some((d, cause)) => Some(EngineAt(cause, Render(d)))
    case None => stop
  }

  function RunPlan(p: Plan, engine: (nat, Ddl) -> Answer<Row>, start: nat): Run {
    Execute(p.statements, engine, start)
  }

  /** The engine accepts each of `statements`, sent from position `start` on. */
  predicate Accepts(engine: (nat, Ddl) -> Answer<Row>, start: nat, statements: seq<Ddl>) {
    forall k :: 0 <= k < |statements| ==> engine(start + k, statements[k]).Sets?
  }

  /** How a phase with plan `p`, sent from position `start` on, may end after the
      engine accepted `executed`, returning `failure`: it ran an accepted prefix
      of the plan; if that prefix is short, the next statement was rejected and
      the failure is the engine's error wrapped with that statement's text; if it
      is the whole plan, the failure is the plan's own. So the phase succeeds
      only by running all of it. */
  predicate EndsAs(p: Plan, engine: (nat, Ddl) -> Answer<Row>, start: nat, executed: seq<Ddl>, failure: Option<Error>) {
    && executed <= p.statements
    && Accepts(engine, start, executed)
    && (|executed| < |p.statements| ==>
          var d := p.statements[|executed|];
          engine(start + |executed|, d).Failed?
          && failure == Some(EngineAt(engine(start + |executed|, d).cause, Render(d))))
    && (|executed| == |p.statements| ==> failure == p.stop)
  }

  /** Running a plan ends as `EndsAs` says, and reaches its end exactly when the
      engine accepts every statement. */
  lemma RunEndsAs(p: Plan, engine: (nat, Ddl) -> Answer<Row>, start: nat)
    ensures EndsAs(p, engine, start, RunPlan(p, engine, start).executed, Failure(RunPlan(p, engine, start), p.stop))
    ensures Accepts(engine, start, p.statements) <==> RunPlan(p, engine, start).executed == p.statements
  {
    var run := RunPlan(p, engine, start);
    if run.rejected.Some? {
      var k := |run.executed|;
      assert engine(start + k, p.statements[k]).Failed?;
    }
  }

  /** With an engine that accepts everything, the whole plan runs. */
  lemma ExecuteAll(statements: seq<Ddl>, engine: (nat, Ddl) -> Answer<Row>, start: nat)
    requires forall k: nat, q :: engine(k, q).Sets?
    ensures Execute(statements, engine, start) == Run(statements, None)
  {
  }

  // ------------------------------------------------------------------ columns

  /** The keys the reconciler files catalog rows under. */
  function NameOfColumn(c: Column): string { c.name }
  function NameOfIndex(i: Index): string { i.name }

  /** A local column whose base type differs from the catalog's. */
  predicate Drifts(c: ColumnDef, remote: map<string, Column>) {
    c.name in remote && FirstToken(c.qlType) != remote[c.name].columnType
  }

  /** What the column loop promises about its plan `r`: it stops exactly when a
      declared column drifts, and then on the first such column after adding
      only earlier columns; it only adds declared columns the catalog lacks, with
      their full types; and when it does not stop, it adds every one of them. */
  predicate ColumnPlanned(table: string, cols: seq<ColumnDef>, remote: map<string, Column>, r: Plan) {
    && ColumnStopPlanned(table, cols, remote, r)
    && (forall s :: s in r.statements ==> (s.AddColumn? && s.table == table && s.name !in remote
      && ColumnDef(s.name, s.qlType) in cols))
    && (r.stop.None? ==> forall k :: 0 <= k < |cols| && cols[k].name !in remote ==>
      AddColumn(table, cols[k].name, cols[k].qlType) in r.statements)
  }

  /** The column loop: in field order, a column the catalog lacks is added with
      its full type; one it has must agree on the base type (the type up to the
      first blank), or the loop ends with a drift error. */
  function ColumnPlan(table: string, cols: seq<ColumnDef>, remote: map<string, Column>): (r: Plan)
    ensures ColumnPlanned(table, cols, remote, r)
    decreases |cols|
  {
    if |cols| == 0 then Plan([], None)
    else
      var c := cols[0];
      var rest := ColumnPlan(table, cols[1..], remote);
      if c.name !in remote then
        ColumnPlanAdds(table, cols, remote, rest);
        Plan([AddColumn(table, c.name, c.qlType)] + rest.statements, rest.stop)
      else if FirstToken(c.qlType) != remote[c.name].columnType then
        var r := Plan([], Some(TypeDrift(c.name, FirstToken(c.qlType), remote[c.name].columnType)));
        assert ColumnStopsAt(table, cols, remote, r, 0);
        r
      else
        ColumnPlanSkips(table, cols, remote, rest);
        rest
  }

  /** The first clause pair of `ColumnPlanned`: when and where the plan stops. */
  predicate ColumnStopPlanned(table: string, cols: seq<ColumnDef>, remote: map<string, Column>, r: Plan) {
    && (r.stop.None? <==> forall k :: 0 <= k < |cols| ==> !Drifts(cols[k], remote))
    && (r.stop.Some? ==> exists j :: 0 <= j < |cols| && ColumnStopsAt(table, cols, remote, r, j))
  }

  /** The plan stops on the column at position `j`, the first that drifts, after
      adding only columns before it. */
  predicate ColumnStopsAt(table: string, cols: seq<ColumnDef>, remote: map<string, Column>, r: Plan, j: int) {
    && 0 <= j < |cols| && Drifts(cols[j], remote)
    && r.stop == Some(TypeDrift(cols[j].name, FirstToken(cols[j].qlType), remote[cols[j].name].columnType))
    && (forall k :: 0 <= k < j ==> !Drifts(cols[k], remote))
    && forall s :: s in r.statements ==> exists k :: 0 <= k < j && s == AddColumn(table, cols[k].name, cols[k].qlType)
  }

  /** A column the catalog lacks is added in front of the rest of the plan. */
  lemma ColumnPlanAdds(table: string, cols: seq<ColumnDef>, remote: map<string, Column>, rest: Plan)
    requires |cols| > 0 && cols[0].name !in remote
    requires ColumnPlanned(table, cols[1..], remote, rest)
    ensures ColumnPlanned(table, cols, remote, Plan([AddColumn(table, cols[0].name, cols[0].qlType)] + rest.statements, rest.stop))
  {
    var r := Plan([AddColumn(table, cols[0].name, cols[0].qlType)] + rest.statements, rest.stop);
    ColumnPlanAddsStop(table, cols, remote, rest);
    var tail := cols[1..];
    assert forall k :: 1 <= k < |cols| ==> cols[k] == tail[k - 1];
    forall s | s in r.statements
      ensures s.AddColumn? && s.table == table && s.name !in remote && ColumnDef(s.name, s.qlType) in cols
    {
      if s in rest.statements {
        assert ColumnDef(s.name, s.qlType) in tail;
      }
    }
    if r.stop.None? {
      forall k | 0 <= k < |cols| && cols[k].name !in remote
        ensures AddColumn(table, cols[k].name, cols[k].qlType) in r.statements
      {
        if k > 0 {
          assert AddColumn(table, tail[k - 1].name, tail[k - 1].qlType) in rest.statements;
        }
      }
    }
  }

  lemma ColumnPlanAddsStop(table: string, cols: seq<ColumnDef>, remote: map<string, Column>, rest: Plan)
    requires |cols| > 0 && cols[0].name !in remote
    requires ColumnStopPlanned(table, cols[1..], remote, rest)
    ensures ColumnStopPlanned(table, cols, remote, Plan([AddColumn(table, cols[0].name, cols[0].qlType)] + rest.statements, rest.stop))
  {
    var head := AddColumn(table, cols[0].name, cols[0].qlType);
    var r := Plan([head] + rest.statements, rest.stop);
    var tail := cols[1..];
    assert forall k :: 1 <= k < |cols| ==> cols[k] == tail[k - 1];
    assert !Drifts(cols[0], remote);
    if r.stop.Some? {
      var j :| 0 <= j < |tail| && ColumnStopsAt(table, tail, remote, rest, j);
      assert cols[j + 1] == tail[j];
      forall s | s in r.statements
        ensures exists k :: 0 <= k < j + 1 && s == AddColumn(table, cols[k].name, cols[k].qlType)
      {
        if s == head {
          assert s == AddColumn(table, cols[0].name, cols[0].qlType);
        } else {
          assert s in rest.statements;
          var k :| 0 <= k < j && s == AddColumn(table, tail[k].name, tail[k].qlType);
          assert s == AddColumn(table, cols[k + 1].name, cols[k + 1].qlType);
        }
      }
      assert ColumnStopsAt(table, cols, remote, r, j + 1);
    }
  }

  /** A column the catalog has with the same base type adds nothing. */
  lemma ColumnPlanSkips(table: string, cols: seq<ColumnDef>, remote: map<string, Column>, rest: Plan)
    requires |cols| > 0 && cols[0].name in remote && !Drifts(cols[0], remote)
    requires ColumnPlanned(table, cols[1..], remote, rest)
    ensures ColumnPlanned(table, cols, remote, rest)
  {
    ColumnPlanSkipsStop(table, cols, remote, rest);
    var tail := cols[1..];
    assert forall k :: 1 <= k < |cols| ==> cols[k] == tail[k - 1];
    forall s | s in rest.statements ensures ColumnDef(s.name, s.qlType) in cols {
      assert ColumnDef(s.name, s.qlType) in tail;
    }
    if rest.stop.None? {
      forall k | 0 <= k < |cols| && cols[k].name !in remote
        ensures AddColumn(table, cols[k].name, cols[k].qlType) in rest.statements
      {
        assert tail[k - 1] == cols[k];
      }
    }
  }

  lemma ColumnPlanSkipsStop(table: string, cols: seq<ColumnDef>, remote: map<string, Column>, rest: Plan)
    requires |cols| > 0 && cols[0].name in remote && !Drifts(cols[0], remote)
    requires ColumnStopPlanned(table, cols[1..], remote, rest)
    ensures ColumnStopPlanned(table, cols, remote, rest)
  {
    var tail := cols[1..];
    assert forall k :: 1 <= k < |cols| ==> cols[k] == tail[k - 1];
    if rest.stop.Some? {
      var j :| 0 <= j < |tail| && ColumnStopsAt(table, tail, remote, rest, j);
      assert cols[j + 1] == tail[j];
      forall s | s in rest.statements
        ensures exists k :: 0 <= k < j + 1 && s == AddColumn(table, cols[k].name, cols[k].qlType)
      {
        var k :| 0 <= k < j && s == AddColumn(table, tail[k].name, tail[k].qlType);
        assert s == AddColumn(table, cols[k + 1].name, cols[k + 1].qlType);
      }
      assert ColumnStopsAt(table, cols, remote, rest, j + 1);
    }
  }

  /** The local column names. */
  function TagSet(cols: seq<ColumnDef>): set<string> {
    set k | 0 <= k < |cols| :: cols[k].name
  }

  /** The drop loop: in catalog order, every column whose name is not a local
      column is dropped. */
  function DropColumnPlan(table: string, remote: seq<Column>, local: set<string>): (r: seq<Ddl>)
    ensures forall s :: s in r ==> (s.DropColumn? && s.table == table && s.name !in local
      && exists k :: 0 <= k < |remote| && remote[k].name == s.name)
    ensures forall k :: 0 <= k < |remote| && remote[k].name !in local ==> DropColumn(table, remote[k].name) in r
    decreases |remote|
  {
    if |remote| == 0 then []
    else
      var rest := DropColumnPlan(table, remote[1..], local);
      assert forall k :: 1 <= k < |remote| ==> remote[k] == remote[1..][k - 1];
      if remote[0].name !in local then [DropColumn(table, remote[0].name)] + rest else rest
  }

  /** The column phase: additions and the drift check, then drops. */
  function ColumnPhase(m: BaseModel, remote: seq<Column>): Plan {
    Then(ColumnPlan(m.tableName, m.columns, KeyBy(remote, NameOfColumn)),
         Plan(DropColumnPlan(m.tableName, remote, TagSet(m.columns)), None))
  }

  // ------------------------------------------------------------------ indexes

  /** A declared index whose uniqueness differs from the catalog index of the
      same name. */
  predicate UniqueDrifts(idx: Index, remote: map<string, Index>) {
    ToIndexName(idx) in remote && idx.isUnique != remote[ToIndexName(idx)].isUnique
  }

  /** What the index creation loop promises about its plan `r`: it stops exactly
      when a declared index's uniqueness drifts, and then on the first such index
      after creating only earlier ones; it only creates declared indexes whose
      names the catalog lacks; and when it does not stop, it creates every one of
      them. */
  predicate IndexesPlanned(table: string, locals: seq<Index>, remote: map<string, Index>, r: Plan) {
    && IndexStopPlanned(table, locals, remote, r)
    && (forall s :: s in r.statements ==> (s.CreateIndex? && s.table == table && s.index in locals
      && ToIndexName(s.index) !in remote))
    && (r.stop.None? ==> forall k :: 0 <= k < |locals| && ToIndexName(locals[k]) !in remote ==>
      CreateIndex(table, locals[k]) in r.statements)
  }

  /** The index creation loop: in declaration-list order, an index whose name the
      catalog lacks is created; one it has must agree on uniqueness. */
  function IndexCreatePlan(table: string, locals: seq<Index>, remote: map<string, Index>): (r: Plan)
    ensures IndexesPlanned(table, locals, remote, r)
    decreases |locals|
  {
    if |locals| == 0 then Plan([], None)
    else
      var idx := locals[0];
      var name := ToIndexName(idx);
      var rest := IndexCreatePlan(table, locals[1..], remote);
      if name !in remote then
        IndexPlanCreates(table, locals, remote, rest);
        Plan([CreateIndex(table, idx)] + rest.statements, rest.stop)
      else if idx.isUnique != remote[name].isUnique then
        var r := Plan([], Some(UniqueDrift(name, idx.isUnique, remote[name].isUnique)));
        assert IndexStopsAt(table, locals, remote, r, 0);
        r
      else
        IndexPlanSkips(table, locals, remote, rest);
        rest
  }

  /** The first clause pair of `IndexesPlanned`: when and where the plan stops. */
  predicate IndexStopPlanned(table: string, locals: seq<Index>, remote: map<string, Index>, r: Plan) {
    && (r.stop.None? <==> forall k :: 0 <= k < |locals| ==> !UniqueDrifts(locals[k], remote))
    && (r.stop.Some? ==> exists j :: 0 <= j < |locals| && IndexStopsAt(table, locals, remote, r, j))
  }

  /** The plan stops on the index at position `j`, the first that drifts, after
      creating only indexes before it. */
  predicate IndexStopsAt(table: string, locals: seq<Index>, remote: map<string, Index>, r: Plan, j: int) {
    && 0 <= j < |locals| && UniqueDrifts(locals[j], remote)
    && r.stop == Some(UniqueDrift(ToIndexName(locals[j]), locals[j].isUnique, remote[ToIndexName(locals[j])].isUnique))
    && (forall k :: 0 <= k < j ==> !UniqueDrifts(locals[k], remote))
    && forall s :: s in r.statements ==> exists k :: 0 <= k < j && s == CreateIndex(table, locals[k])
  }

  /** An index the catalog lacks is created in front of the rest of the plan. */
  lemma IndexPlanCreates(table: string, locals: seq<Index>, remote: map<string, Index>, rest: Plan)
    requires |locals| > 0 && ToIndexName(locals[0]) !in remote
    requires IndexesPlanned(table, locals[1..], remote, rest)
    ensures IndexesPlanned(table, locals, remote, Plan([CreateIndex(table, locals[0])] + rest.statements, rest.stop))
  {
    var r := Plan([CreateIndex(table, locals[0])] + rest.statements, rest.stop);
    IndexPlanCreatesStop(table, locals, remote, rest);
    var tail := locals[1..];
    assert forall k :: 1 <= k < |locals| ==> locals[k] == tail[k - 1];
    forall s | s in r.statements
      ensures s.CreateIndex? && s.table == table && s.index in locals && ToIndexName(s.index) !in remote
    {
      if s in rest.statements {
        assert s.index in tail;
      }
    }
    if r.stop.None? {
      forall k | 0 <= k < |locals| && ToIndexName(locals[k]) !in remote
        ensures CreateIndex(table, locals[k]) in r.statements
      {
        if k > 0 {
          assert CreateIndex(table, tail[k - 1]) in rest.statements;
        }
      }
    }
  }

  lemma IndexPlanCreatesStop(table: string, locals: seq<Index>, remote: map<string, Index>, rest: Plan)
    requires |locals| > 0 && ToIndexName(locals[0]) !in remote
    requires IndexStopPlanned(table, locals[1..], remote, rest)
    ensures IndexStopPlanned(table, locals, remote, Plan([CreateIndex(table, locals[0])] + rest.statements, rest.stop))
  {
    var head := CreateIndex(table, locals[0]);
    var r := Plan([head] + rest.statements, rest.stop);
    var tail := locals[1..];
    assert forall k :: 1 <= k < |locals| ==> locals[k] == tail[k - 1];
    assert !UniqueDrifts(locals[0], remote);
    if r.stop.Some? {
      var j :| 0 <= j < |tail| && IndexStopsAt(table, tail, remote, rest, j);
      assert locals[j + 1] == tail[j];
      forall s | s in r.statements
        ensures exists k :: 0 <= k < j + 1 && s == CreateIndex(table, locals[k])
      {
        if s == head {
          assert s == CreateIndex(table, locals[0]);
        } else {
          assert s in rest.statements;
          var k :| 0 <= k < j && s == CreateIndex(table, tail[k]);
          assert s == CreateIndex(table, locals[k + 1]);
        }
      }
      assert IndexStopsAt(table, locals, remote, r, j + 1);
    }
  }

  /** An index the catalog has with the same uniqueness creates nothing. */
  lemma IndexPlanSkips(table: string, locals: seq<Index>, remote: map<string, Index>, rest: Plan)
    requires |locals| > 0 && ToIndexName(locals[0]) in remote && !UniqueDrifts(locals[0], remote)
    requires IndexesPlanned(table, locals[1..], remote, rest)
    ensures IndexesPlanned(table, locals, remote, rest)
  {
    IndexPlanSkipsStop(table, locals, remote, rest);
    var tail := locals[1..];
    assert forall k :: 1 <= k < |locals| ==> locals[k] == tail[k - 1];
    forall s | s in rest.statements ensures s.index in locals {
      assert s.index in tail;
    }
    if rest.stop.None? {
      forall k | 0 <= k < |locals| && ToIndexName(locals[k]) !in remote
        ensures CreateIndex(table, locals[k]) in rest.statements
      {
        assert tail[k - 1] == locals[k];
      }
    }
  }

  lemma IndexPlanSkipsStop(table: string, locals: seq<Index>, remote: map<string, Index>, rest: Plan)
    requires |locals| > 0 && ToIndexName(locals[0]) in remote && !UniqueDrifts(locals[0], remote)
    requires IndexStopPlanned(table, locals[1..], remote, rest)
    ensures IndexStopPlanned(table, locals, remote, rest)
  {
    var tail := locals[1..];
    assert forall k :: 1 <= k < |locals| ==> locals[k] == tail[k - 1];
    if rest.stop.Some? {
      var j :| 0 <= j < |tail| && IndexStopsAt(table, tail, remote, rest, j);
      assert locals[j + 1] == tail[j];
      forall s | s in rest.statements
        ensures exists k :: 0 <= k < j + 1 && s == CreateIndex(table, locals[k])
      {
        var k :| 0 <= k < j && s == CreateIndex(table, tail[k]);
        assert s == CreateIndex(table, locals[k + 1]);
      }
      assert IndexStopsAt(table, locals, remote, rest, j + 1);
    }
  }

  /** The names of the declared indexes. */
  function IndexNames(locals: seq<Index>): set<string> {
    set k | 0 <= k < |locals| :: ToIndexName(locals[k])
  }

  /** An index name the drop loop never touches: anything with `_pkey` in it. */
  predicate Protected(name: string) {
    Contains(name, "_pkey")
  }

  /** The index drop loop: in catalog order, an index that is neither protected
      nor declared is dropped. */
  function IndexDropPlan(remote: seq<Index>, local: set<string>): (r: seq<Ddl>)
    ensures forall s :: s in r ==> (s.DropIndex? && !Protected(s.name) && s.name !in local
      && exists k :: 0 <= k < |remote| && remote[k].name == s.name)
    ensures forall k :: 0 <= k < |remote| && !Protected(remote[k].name) && remote[k].name !in local ==>
      DropIndex(remote[k].name) in r
    decreases |remote|
  {
    if |remote| == 0 then []
    else
      var rest := IndexDropPlan(remote[1..], local);
      assert forall k :: 1 <= k < |remote| ==> remote[k] == remote[1..][k - 1];
      if !Protected(remote[0].name) && remote[0].name !in local then [DropIndex(remote[0].name)] + rest else rest
  }

  /** The index phase: creations and the uniqueness check, then drops. */
  function IndexPhase(m: BaseModel, locals: seq<Index>, remote: seq<Index>): Plan {
    Then(IndexCreatePlan(m.tableName, locals, KeyBy(remote, NameOfIndex)),
         Plan(IndexDropPlan(remote, IndexNames(locals)), None))
  }

  // ---------------------------------------------------------------- creation

  /** The primary-key index every new table gets first. */
  const PkeyIndex := Index("", PkeyColumn, "", true)

  /** The statements for a table the catalog does not have yet. */
  function CreationPlan(m: BaseModel, locals: seq<Index>): (r: seq<Ddl>)
    ensures |r| == 2 + |locals|
    ensures r[0] == CreateTable(m.tableName, m.columns) && r[1] == CreateIndex(m.tableName, PkeyIndex)
    ensures forall k :: 0 <= k < |locals| ==> r[k + 2] == CreateIndex(m.tableName, locals[k])
    ensures forall s :: s in r ==> s.CreateTable? || s.CreateIndex?
  {
    [CreateTable(m.tableName, m.columns), CreateIndex(m.tableName, PkeyIndex)]
      + seq(|locals|, k requires 0 <= k < |locals| => CreateIndex(m.tableName, locals[k]))
  }

  // ------------------------------------------------------------- constructor

  /** How the constructor ends: with an error, or with a model for a table it
      created or for one it reconciled; `executed` lists the statements the engine
      accepted, in order. */
  datatype Outcome =
    | Aborted(error: Error, executed: seq<Ddl>)
    | Created(model: BaseModel, executed: seq<Ddl>)
    | Reconciled(model: BaseModel, executed: seq<Ddl>)

  /** The error an outcome returns, if any. */
  function ErrorOf(r: Outcome): Option<Error> {
    if r.Aborted? then Some(r.error) else None
  }

  /** How the constructor may end on an existing table whose catalog lists
      `remote`: a column phase that cannot run to its end without error aborts
      as `EndsAs` says; after one that does, a failed index-catalog read aborts
      with that read's error, and otherwise the index phase ends as `EndsAs`
      says. */
  predicate TableEndsAs(m: BaseModel, locals: seq<Index>, remote: seq<Column>, indexCatalog: Answer<Index>,
                        engine: (nat, Ddl) -> Answer<Row>, r: Outcome) {
    var cp := ColumnPhase(m, remote);
    && !r.Created?
    && (if cp.stop.None? && Accepts(engine, 0, cp.statements) then
          && cp.statements <= r.executed
          && (GetIndexes(indexCatalog).Err? ==> r == Aborted(GetIndexes(indexCatalog).error, cp.statements))
          && (GetIndexes(indexCatalog).Ok? ==>
                EndsAs(IndexPhase(m, locals, GetIndexes(indexCatalog).value), engine, |cp.statements|,
                       r.executed[|cp.statements|..], ErrorOf(r)))
        else r.Aborted? && EndsAs(cp, engine, 0, r.executed, Some(r.error)))
  }

  /** The index phase on an existing table, after the column phase went through
      and the engine accepted `columnsRun`. */
  function ReconcileIndexes(m: BaseModel, locals: seq<Index>, columnsRun: seq<Ddl>, indexCatalog: Answer<Index>,
                            engine: (nat, Ddl) -> Answer<Row>): (r: Outcome)
    requires forall k :: 0 <= k < |columnsRun| ==> engine(k, columnsRun[k]).Sets?
    ensures !r.Created?
    ensures !r.Reconciled? || r.model == m
    ensures columnsRun <= r.executed
    ensures forall k :: 0 <= k < |r.executed| ==> engine(k, r.executed[k]).Sets?
    ensures GetIndexes(indexCatalog).Err? ==> r == Aborted(GetIndexes(indexCatalog).error, columnsRun)
    ensures GetIndexes(indexCatalog).Ok? ==>
      EndsAs(IndexPhase(m, locals, GetIndexes(indexCatalog).value), engine, |columnsRun|,
             r.executed[|columnsRun|..], ErrorOf(r))
    ensures r.Reconciled? ==>
      && GetIndexes(indexCatalog).Ok?
      && IndexPhase(m, locals, GetIndexes(indexCatalog).value).stop.None?
      && r.executed == columnsRun + IndexPhase(m, locals, GetIndexes(indexCatalog).value).statements
  {
    match GetIndexes(indexCatalog)
    case Err(e) => Aborted(e, columnsRun)
    case Ok(remote) =>
      var plan := IndexPhase(m, locals, remote);
      var run := RunPlan(plan, engine, |columnsRun|);
      RunEndsAs(plan, engine, |columnsRun|);
      assert (columnsRun + run.executed)[|columnsRun|..] == run.executed;
      assert forall k :: |columnsRun| <= k < |columnsRun| + |run.executed| ==>
        (columnsRun + run.executed)[k] == run.executed[k - |columnsRun|];
      match Failure(run, plan.stop)
      case Some(e) => Aborted(e, columnsRun + run.executed)
      case None => Reconciled(m, columnsRun + run.executed)
  }

  /** An existing table: the column phase, then the index phase. */
  function ReconcileTable(m: BaseModel, locals: seq<Index>, remote: seq<Column>, indexCatalog: Answer<Index>,
                          engine: (nat, Ddl) -> Answer<Row>): (r: Outcome)
    ensures !r.Aborted? ==> r.Reconciled? && r.model == m
    ensures forall k :: 0 <= k < |r.executed| ==> engine(k, r.executed[k]).Sets?
    ensures TableEndsAs(m, locals, remote, indexCatalog, engine, r)
    ensures r.Reconciled? ==>
      && ColumnPhase(m, remote).stop.None?
      && GetIndexes(indexCatalog).Ok?
      && IndexPhase(m, locals, GetIndexes(indexCatalog).value).stop.None?
      && r.executed == ColumnPhase(m, remote).statements + IndexPhase(m, locals, GetIndexes(indexCatalog).value).statements
  {
    var plan := ColumnPhase(m, remote);
    var run := RunPlan(plan, engine, 0);
    RunEndsAs(plan, engine, 0);
    match Failure(run, plan.stop)
    case Some(e) => Aborted(e, run.executed)
    case None => ReconcileIndexes(m, locals, run.executed, indexCatalog, engine)
  }

  /** A new table: create it, then its primary-key index, then the declared ones. */
  function CreateTableAndIndexes(m: BaseModel, locals: seq<Index>, engine: (nat, Ddl) -> Answer<Row>): (r: Outcome)
    ensures !r.Aborted? ==> r.Created? && r.model == m
    ensures forall k :: 0 <= k < |r.executed| ==> engine(k, r.executed[k]).Sets?
    ensures EndsAs(Plan(CreationPlan(m, locals), None), engine, 0, r.executed, ErrorOf(r))
    ensures r.Created? <==> r.executed == CreationPlan(m, locals)
  {
    var run := Execute(CreationPlan(m, locals), engine, 0);
    RunEndsAs(Plan(CreationPlan(m, locals), None), engine, 0);
    match Failure(run, None)
    case Some(e) => Aborted(e, run.executed)
    case None => Created(m, run.executed)
  }

  /** `NewBaseModelWithCreated` once the database is open. `order` is the order
      in which the runtime happens to range over the index-tag map; the two
      catalog answers are what the engine reports for the table's columns and
      its indexes; `engine` answers the statements. */
  function NewBaseModelWithCreated(rt: RecordType, toSnake: string -> string, order: seq<string>,
                                   columnCatalog: Answer<Column>, indexCatalog: Answer<Index>,
                                   engine: (nat, Ddl) -> Answer<Row>): (r: Outcome)
    ensures Validate(rt, toSnake).Err? ==> r == Aborted(Validate(rt, toSnake).error, [])
    ensures Validate(rt, toSnake).Ok? && LocalIndexes(rt, toSnake, order).Ok? && DescTable(columnCatalog).Err? ==>
      r == Aborted(DescTable(columnCatalog).error, [])
    ensures !r.Aborted? ==> Validate(rt, toSnake).Ok? && LocalIndexes(rt, toSnake, order).Ok?
    ensures !r.Aborted? ==> r.model == ModelOf(rt, toSnake, Validate(rt, toSnake).value)
    ensures r.Created? ==> DescTable(columnCatalog) == Ok([])
    ensures r.Reconciled? ==> DescTable(columnCatalog).Ok? && |DescTable(columnCatalog).value| > 0
    ensures forall k :: 0 <= k < |r.executed| ==> engine(k, r.executed[k]).Sets?
  {
    match Validate(rt, toSnake)
    case Err(e) => Aborted(e, [])
    case Ok(d) =>
      match LocalIndexes(rt, toSnake, order)
      case Err(e) => Aborted(e, [])
      case Ok(locals) => ReconcileModel(ModelOf(rt, toSnake, d), locals, columnCatalog, indexCatalog, engine)
  }

  /** A rejected index tag aborts the constructor before the catalog is read or
      any statement runs. */
  lemma IndexTagErrorAborts(rt: RecordType, toSnake: string -> string, order: seq<string>,
                            columnCatalog: Answer<Column>, indexCatalog: Answer<Index>,
                            engine: (nat, Ddl) -> Answer<Row>)
    ensures Validate(rt, toSnake).Ok? && LocalIndexes(rt, toSnake, order).Err? ==>
      NewBaseModelWithCreated(rt, toSnake, order, columnCatalog, indexCatalog, engine)
        == Aborted(LocalIndexes(rt, toSnake, order).error, [])
  {
  }

  /** `toIndexList` over the accepted declaration's index tags, ranged in `order`,
      for the model's table. */
  function LocalIndexes(rt: RecordType, toSnake: string -> string, order: seq<string>): Result<seq<Index>, Error>
    requires Validate(rt, toSnake).Ok?
  {
    var d := Validate(rt, toSnake).value;
    ToIndexList(d.indexTags, Enumerate(order, d.indexKeys), ModelOf(rt, toSnake, d).tableName)
  }

  /** The constructor once the declaration and its index list are known: a table
      the catalog lists no column for is created, any other is reconciled. */
  function ReconcileModel(m: BaseModel, locals: seq<Index>, columnCatalog: Answer<Column>, indexCatalog: Answer<Index>,
                          engine: (nat, Ddl) -> Answer<Row>): (r: Outcome)
    ensures DescTable(columnCatalog).Err? ==> r == Aborted(DescTable(columnCatalog).error, [])
    ensures DescTable(columnCatalog) == Ok([]) ==>
      EndsAs(Plan(CreationPlan(m, locals), None), engine, 0, r.executed, ErrorOf(r))
    ensures DescTable(columnCatalog).Ok? && |DescTable(columnCatalog).value| > 0 ==>
      TableEndsAs(m, locals, DescTable(columnCatalog).value, indexCatalog, engine, r)
    ensures !r.Aborted? ==> r.model == m
    ensures r.Created? ==> DescTable(columnCatalog) == Ok([])
    ensures r.Reconciled? ==> DescTable(columnCatalog).Ok? && |DescTable(columnCatalog).value| > 0
    ensures forall k :: 0 <= k < |r.executed| ==> engine(k, r.executed[k]).Sets?
  {
    match DescTable(columnCatalog)
    case Err(e) => Aborted(e, [])
    case Ok(remote) =>
      if |remote| == 0 then CreateTableAndIndexes(m, locals, engine)
      else ReconcileTable(m, locals, remote, indexCatalog, engine)
  }

  // ---------------------------------------------------------------- properties

  /** The local index list of an accepted declaration under iteration order `order`. */
  predicate LocalsOf(rt: RecordType, toSnake: string -> string, order: seq<string>, locals: seq<Index>) {
    Validate(rt, toSnake).Ok? && LocalIndexes(rt, toSnake, order) == Ok(locals)
  }

  /** Where an executed statement comes from: the creation plan for a new table;
      otherwise the column phase, or the index phase once the index catalog was
      read. */
  lemma ExecutedArePlanned(rt: RecordType, toSnake: string -> string, order: seq<string>, locals: seq<Index>,
                           columnCatalog: Answer<Column>, indexCatalog: Answer<Index>, engine: (nat, Ddl) -> Answer<Row>)
    requires LocalsOf(rt, toSnake, order, locals)
    ensures var r := NewBaseModelWithCreated(rt, toSnake, order, columnCatalog, indexCatalog, engine);
      var m := ModelOf(rt, toSnake, Validate(rt, toSnake).value);
      forall s :: s in r.executed ==>
        && DescTable(columnCatalog).Ok?
        && (|DescTable(columnCatalog).value| == 0 ==> s in CreationPlan(m, locals))
        && (|DescTable(columnCatalog).value| > 0 ==>
              s in ColumnPhase(m, DescTable(columnCatalog).value).statements
              || (GetIndexes(indexCatalog).Ok? && s in IndexPhase(m, locals, GetIndexes(indexCatalog).value).statements))
  {
    ConstructorReconciles(rt, toSnake, order, locals, columnCatalog, indexCatalog, engine);
    ModelRunIsPlanned(ModelOf(rt, toSnake, Validate(rt, toSnake).value), locals, columnCatalog, indexCatalog, engine);
  }

  /** The constructor returns the first failure. With the declaration and its
      index list accepted, a new table ends as its creation plan does and an
      existing one as `TableEndsAs` says; success means the whole creation plan,
      or both whole phases, ran. */
  lemma FirstFailureIsReturned(rt: RecordType, toSnake: string -> string, order: seq<string>, locals: seq<Index>,
                               columnCatalog: Answer<Column>, indexCatalog: Answer<Index>, engine: (nat, Ddl) -> Answer<Row>)
    requires LocalsOf(rt, toSnake, order, locals)
    ensures var r := NewBaseModelWithCreated(rt, toSnake, order, columnCatalog, indexCatalog, engine);
      var m := ModelOf(rt, toSnake, Validate(rt, toSnake).value);
      && (DescTable(columnCatalog) == Ok([]) ==>
            && EndsAs(Plan(CreationPlan(m, locals), None), engine, 0, r.executed, ErrorOf(r))
            && (r.Created? <==> r.executed == CreationPlan(m, locals)))
      && (DescTable(columnCatalog).Ok? && |DescTable(columnCatalog).value| > 0 ==>
            && TableEndsAs(m, locals, DescTable(columnCatalog).value, indexCatalog, engine, r)
            && (r.Reconciled? ==>
                  && ColumnPhase(m, DescTable(columnCatalog).value).stop.None?
                  && GetIndexes(indexCatalog).Ok?
                  && IndexPhase(m, locals, GetIndexes(indexCatalog).value).stop.None?
                  && r.executed == ColumnPhase(m, DescTable(columnCatalog).value).statements
                                   + IndexPhase(m, locals, GetIndexes(indexCatalog).value).statements))
  {
    ConstructorReconciles(rt, toSnake, order, locals, columnCatalog, indexCatalog, engine);
    var m := ModelOf(rt, toSnake, Validate(rt, toSnake).value);
    if DescTable(columnCatalog).Ok? {
      var remote := DescTable(columnCatalog).value;
      if |remote| == 0 {
        assert ReconcileModel(m, locals, columnCatalog, indexCatalog, engine) == CreateTableAndIndexes(m, locals, engine);
      } else {
        assert ReconcileModel(m, locals, columnCatalog, indexCatalog, engine)
          == ReconcileTable(m, locals, remote, indexCatalog, engine);
      }
    }
  }

  /** With the declaration and its index list accepted, the constructor is
      `ReconcileModel` on them. */
  lemma ConstructorReconciles(rt: RecordType, toSnake: string -> string, order: seq<string>, locals: seq<Index>,
                              columnCatalog: Answer<Column>, indexCatalog: Answer<Index>, engine: (nat, Ddl) -> Answer<Row>)
    requires LocalsOf(rt, toSnake, order, locals)
    ensures NewBaseModelWithCreated(rt, toSnake, order, columnCatalog, indexCatalog, engine)
      == ReconcileModel(ModelOf(rt, toSnake, Validate(rt, toSnake).value), locals, columnCatalog, indexCatalog, engine)
  {
  }

  /** `ExecutedArePlanned`, for a given model and index list. */
  lemma ModelRunIsPlanned(m: BaseModel, locals: seq<Index>, columnCatalog: Answer<Column>, indexCatalog: Answer<Index>,
                          engine: (nat, Ddl) -> Answer<Row>)
    ensures forall s :: s in ReconcileModel(m, locals, columnCatalog, indexCatalog, engine).executed ==>
        && DescTable(columnCatalog).Ok?
        && (|DescTable(columnCatalog).value| == 0 ==> s in CreationPlan(m, locals))
        && (|DescTable(columnCatalog).value| > 0 ==>
              s in ColumnPhase(m, DescTable(columnCatalog).value).statements
              || (GetIndexes(indexCatalog).Ok? && s in IndexPhase(m, locals, GetIndexes(indexCatalog).value).statements))
  {
    if DescTable(columnCatalog).Ok? && |DescTable(columnCatalog).value| > 0 {
      ExistingTableRunIsPlanned(m, locals, DescTable(columnCatalog).value, indexCatalog, engine);
    } else if DescTable(columnCatalog).Ok? {
      var run := Execute(CreationPlan(m, locals), engine, 0);
      assert forall s :: s in run.executed ==> s in CreationPlan(m, locals);
    }
  }

  /** On an existing table, what runs comes from the column phase or the index phase. */
  lemma ExistingTableRunIsPlanned(m: BaseModel, locals: seq<Index>, remote: seq<Column>, indexCatalog: Answer<Index>,
                                  engine: (nat, Ddl) -> Answer<Row>)
    ensures forall s :: s in ReconcileTable(m, locals, remote, indexCatalog, engine).executed ==>
      s in ColumnPhase(m, remote).statements
      || (GetIndexes(indexCatalog).Ok? && s in IndexPhase(m, locals, GetIndexes(indexCatalog).value).statements)
  {
    var plan := ColumnPhase(m, remote);
    var run := RunPlan(plan, engine, 0);
    assert forall s :: s in run.executed ==> s in plan.statements;
    if Failure(run, plan.stop).None? && GetIndexes(indexCatalog).Ok? {
      var iplan := IndexPhase(m, locals, GetIndexes(indexCatalog).value);
      var irun := RunPlan(iplan, engine, |run.executed|);
      assert forall s :: s in irun.executed ==> s in iplan.statements;
      assert ReconcileTable(m, locals, remote, indexCatalog, engine).executed == run.executed + irun.executed;
    }
  }

  lemma ColumnPhaseDropsStrays(m: BaseModel, remote: seq<Column>)
    ensures forall s :: s in ColumnPhase(m, remote).statements && s.DropColumn? ==>
      && s.table == m.tableName && s.name !in TagSet(m.columns)
      && exists k :: 0 <= k < |remote| && remote[k].name == s.name
    ensures forall s :: s in ColumnPhase(m, remote).statements ==> !s.DropIndex?
  {
    var cp := ColumnPlan(m.tableName, m.columns, KeyBy(remote, NameOfColumn));
    var drops := DropColumnPlan(m.tableName, remote, TagSet(m.columns));
    assert forall s :: s in ColumnPhase(m, remote).statements ==> s in cp.statements || s in drops;
  }

  lemma IndexPhaseDropsStrays(m: BaseModel, locals: seq<Index>, remote: seq<Index>)
    ensures forall s :: s in IndexPhase(m, locals, remote).statements && s.DropIndex? ==>
      && !Protected(s.name) && s.name !in IndexNames(locals)
      && exists k :: 0 <= k < |remote| && remote[k].name == s.name
    ensures forall s :: s in IndexPhase(m, locals, remote).statements ==> !s.DropColumn?
  {
    var ip := IndexCreatePlan(m.tableName, locals, KeyBy(remote, NameOfIndex));
    var drops := IndexDropPlan(remote, IndexNames(locals));
    assert forall s :: s in IndexPhase(m, locals, remote).statements ==> s in ip.statements || s in drops;
  }

  /** The reconciler only drops columns it does not know: a dropped column is a
      catalog column that no field declares. */
  lemma DropsOnlyStrayColumns(rt: RecordType, toSnake: string -> string, order: seq<string>, locals: seq<Index>,
                              columnCatalog: Answer<Column>, indexCatalog: Answer<Index>, engine: (nat, Ddl) -> Answer<Row>)
    requires LocalsOf(rt, toSnake, order, locals)
    ensures var r := NewBaseModelWithCreated(rt, toSnake, order, columnCatalog, indexCatalog, engine);
      var m := ModelOf(rt, toSnake, Validate(rt, toSnake).value);
      forall s :: s in r.executed && s.DropColumn? ==>
        && s.table == m.tableName && s.name !in TagSet(m.columns)
        && DescTable(columnCatalog).Ok?
        && exists k :: 0 <= k < |DescTable(columnCatalog).value| && DescTable(columnCatalog).value[k].name == s.name
  {
    ConstructorReconciles(rt, toSnake, order, locals, columnCatalog, indexCatalog, engine);
    ModelDropsOnlyStrayColumns(ModelOf(rt, toSnake, Validate(rt, toSnake).value), locals, columnCatalog, indexCatalog, engine);
  }

  lemma ModelDropsOnlyStrayColumns(m: BaseModel, locals: seq<Index>, columnCatalog: Answer<Column>, indexCatalog: Answer<Index>,
                                   engine: (nat, Ddl) -> Answer<Row>)
    ensures forall s :: s in ReconcileModel(m, locals, columnCatalog, indexCatalog, engine).executed && s.DropColumn? ==>
        && s.table == m.tableName && s.name !in TagSet(m.columns)
        && DescTable(columnCatalog).Ok?
        && exists k :: 0 <= k < |DescTable(columnCatalog).value| && DescTable(columnCatalog).value[k].name == s.name
  {
    var r := ReconcileModel(m, locals, columnCatalog, indexCatalog, engine);
    ModelRunIsPlanned(m, locals, columnCatalog, indexCatalog, engine);
    if DescTable(columnCatalog).Ok? {
      var remote := DescTable(columnCatalog).value;
      ColumnPhaseDropsStrays(m, remote);
      if GetIndexes(indexCatalog).Ok? {
        IndexPhaseDropsStrays(m, locals, GetIndexes(indexCatalog).value);
      }
      forall s | s in r.executed && s.DropColumn?
        ensures s.table == m.tableName && s.name !in TagSet(m.columns)
          && exists k :: 0 <= k < |remote| && remote[k].name == s.name
      {
      }
    }
  }

  /** The reconciler only drops indexes it does not know: a dropped index is a
      catalog index that is neither the primary key's (nothing with `_pkey` in
      its name) nor declared by any field. */
  lemma DropsOnlyStrayIndexes(rt: RecordType, toSnake: string -> string, order: seq<string>, locals: seq<Index>,
                              columnCatalog: Answer<Column>, indexCatalog: Answer<Index>, engine: (nat, Ddl) -> Answer<Row>)
    requires LocalsOf(rt, toSnake, order, locals)
    ensures var r := NewBaseModelWithCreated(rt, toSnake, order, columnCatalog, indexCatalog, engine);
      forall s :: s in r.executed && s.DropIndex? ==>
        && !Protected(s.name) && s.name !in IndexNames(locals)
        && GetIndexes(indexCatalog).Ok?
        && exists k :: 0 <= k < |GetIndexes(indexCatalog).value| && GetIndexes(indexCatalog).value[k].name == s.name
  {
    ConstructorReconciles(rt, toSnake, order, locals, columnCatalog, indexCatalog, engine);
    ModelDropsOnlyStrayIndexes(ModelOf(rt, toSnake, Validate(rt, toSnake).value), locals, columnCatalog, indexCatalog, engine);
  }

  lemma ModelDropsOnlyStrayIndexes(m: BaseModel, locals: seq<Index>, columnCatalog: Answer<Column>, indexCatalog: Answer<Index>,
                                   engine: (nat, Ddl) -> Answer<Row>)
    ensures forall s :: s in ReconcileModel(m, locals, columnCatalog, indexCatalog, engine).executed && s.DropIndex? ==>
        && !Protected(s.name) && s.name !in IndexNames(locals)
        && GetIndexes(indexCatalog).Ok?
        && exists k :: 0 <= k < |GetIndexes(indexCatalog).value| && GetIndexes(indexCatalog).value[k].name == s.name
  {
    var r := ReconcileModel(m, locals, columnCatalog, indexCatalog, engine);
    ModelRunIsPlanned(m, locals, columnCatalog, indexCatalog, engine);
    if DescTable(columnCatalog).Ok? {
      var remote := DescTable(columnCatalog).value;
      ColumnPhaseDropsStrays(m, remote);
      if GetIndexes(indexCatalog).Ok? {
        IndexPhaseDropsStrays(m, locals, GetIndexes(indexCatalog).value);
      }
      forall s | s in r.executed && s.DropIndex?
        ensures !Protected(s.name) && s.name !in IndexNames(locals)
          && GetIndexes(indexCatalog).Ok?
          && exists k :: 0 <= k < |GetIndexes(indexCatalog).value| && GetIndexes(indexCatalog).value[k].name == s.name
      {
      }
    }
  }

  /** A phase that ends with a drift error ends with its own plan's error, after
      running the whole plan. */
  lemma DriftIsPlanned(p: Plan, engine: (nat, Ddl) -> Answer<Row>, start: nat)
    requires var f := Failure(RunPlan(p, engine, start), p.stop); f.Some? && !f.value.EngineAt?
    ensures RunPlan(p, engine, start) == Run(p.statements, None)
    ensures Failure(RunPlan(p, engine, start), p.stop) == p.stop
  {
    var run := RunPlan(p, engine, start);
    assert run.executed == p.statements[..|run.executed|];
    assert p.statements[..|p.statements|] == p.statements;
  }

  /** A column phase that stops, stops on a type drift after additions only. */
  lemma ColumnPhaseStop(m: BaseModel, remote: seq<Column>)
    ensures var p := ColumnPhase(m, remote);
      p.stop.Some? ==>
        && p.stop.value.TypeDrift? && p.stop.value.column in TagSet(m.columns)
        && forall s :: s in p.statements ==>
             s.AddColumn? && ColumnDef(s.name, s.qlType) in m.columns
             && s.name !in KeyBy(remote, NameOfColumn)
  {
  }

  /** A type drift ends the constructor after additions only: every statement it
      ran added a declared column the catalog lacked, and no index was touched. */
  lemma TypeDriftRunsOnlyAdditions(rt: RecordType, toSnake: string -> string, order: seq<string>, locals: seq<Index>,
                                   columnCatalog: Answer<Column>, indexCatalog: Answer<Index>, engine: (nat, Ddl) -> Answer<Row>)
    requires LocalsOf(rt, toSnake, order, locals)
    ensures var r := NewBaseModelWithCreated(rt, toSnake, order, columnCatalog, indexCatalog, engine);
      var m := ModelOf(rt, toSnake, Validate(rt, toSnake).value);
      r.Aborted? && r.error.TypeDrift? ==>
        && DescTable(columnCatalog).Ok?
        && r.error.column in TagSet(m.columns)
        && forall s :: s in r.executed ==>
             s.AddColumn? && ColumnDef(s.name, s.qlType) in m.columns
             && s.name !in KeyBy(DescTable(columnCatalog).value, NameOfColumn)
  {
    ConstructorReconciles(rt, toSnake, order, locals, columnCatalog, indexCatalog, engine);
    ModelTypeDrift(ModelOf(rt, toSnake, Validate(rt, toSnake).value), locals, columnCatalog, indexCatalog, engine);
  }

  lemma ModelTypeDrift(m: BaseModel, locals: seq<Index>, columnCatalog: Answer<Column>, indexCatalog: Answer<Index>,
                       engine: (nat, Ddl) -> Answer<Row>)
    ensures var r := ReconcileModel(m, locals, columnCatalog, indexCatalog, engine);
      r.Aborted? && r.error.TypeDrift? ==>
        && DescTable(columnCatalog).Ok?
        && r.error.column in TagSet(m.columns)
        && forall s :: s in r.executed ==>
             s.AddColumn? && ColumnDef(s.name, s.qlType) in m.columns
             && s.name !in KeyBy(DescTable(columnCatalog).value, NameOfColumn)
  {
    var r := ReconcileModel(m, locals, columnCatalog, indexCatalog, engine);
    if r.Aborted? && r.error.TypeDrift? {
      var remote := DescTable(columnCatalog).value;
      var plan := ColumnPhase(m, remote);
      var run := RunPlan(plan, engine, 0);
      if Failure(run, plan.stop).Some? {
        DriftIsPlanned(plan, engine, 0);
        ColumnPhaseStop(m, remote);
      } else {
        var iplan := IndexPhase(m, locals, GetIndexes(indexCatalog).value);
        var irun := RunPlan(iplan, engine, |run.executed|);
        DriftIsPlanned(iplan, engine, |run.executed|);
        assert false;
      }
    }
  }

  /** A uniqueness drift ends the constructor without dropping any index: besides
      the column phase, it only created declared indexes the catalog lacked. */
  lemma UniqueDriftDropsNoIndex(rt: RecordType, toSnake: string -> string, order: seq<string>, locals: seq<Index>,
                                columnCatalog: Answer<Column>, indexCatalog: Answer<Index>, engine: (nat, Ddl) -> Answer<Row>)
    requires LocalsOf(rt, toSnake, order, locals)
    ensures var r := NewBaseModelWithCreated(rt, toSnake, order, columnCatalog, indexCatalog, engine);
      var m := ModelOf(rt, toSnake, Validate(rt, toSnake).value);
      r.Aborted? && r.error.UniqueDrift? ==>
        && DescTable(columnCatalog).Ok?
        && forall s :: s in r.executed ==>
             s in ColumnPhase(m, DescTable(columnCatalog).value).statements || (s.CreateIndex? && s.index in locals)
  {
    ConstructorReconciles(rt, toSnake, order, locals, columnCatalog, indexCatalog, engine);
    ModelUniqueDrift(ModelOf(rt, toSnake, Validate(rt, toSnake).value), locals, columnCatalog, indexCatalog, engine);
  }

  lemma ModelUniqueDrift(m: BaseModel, locals: seq<Index>, columnCatalog: Answer<Column>, indexCatalog: Answer<Index>,
                         engine: (nat, Ddl) -> Answer<Row>)
    ensures var r := ReconcileModel(m, locals, columnCatalog, indexCatalog, engine);
      r.Aborted? && r.error.UniqueDrift? ==>
        && DescTable(columnCatalog).Ok?
        && forall s :: s in r.executed ==>
             s in ColumnPhase(m, DescTable(columnCatalog).value).statements || (s.CreateIndex? && s.index in locals)
  {
    var r := ReconcileModel(m, locals, columnCatalog, indexCatalog, engine);
    if r.Aborted? && r.error.UniqueDrift? {
      var remote := DescTable(columnCatalog).value;
      assert |remote| > 0;
      var plan := ColumnPhase(m, remote);
      var run := RunPlan(plan, engine, 0);
      assert Failure(run, plan.stop).None?;
      var iremote := GetIndexes(indexCatalog).value;
      var iplan := IndexPhase(m, locals, iremote);
      var ip := IndexCreatePlan(m.tableName, locals, KeyBy(iremote, NameOfIndex));
      var irun := RunPlan(iplan, engine, |run.executed|);
      assert Failure(irun, iplan.stop).Some?;
      assert irun.rejected.None?;
      assert iplan == ip;
      assert r.executed == run.executed + irun.executed;
      assert forall s :: s in run.executed ==> s in plan.statements;
      assert forall s :: s in irun.executed ==> s in ip.statements;
    }
  }

  /** A table the catalog does not know is created with exactly the declared
      columns, then gets its primary-key index, then every declared index; the
      index catalog is not consulted. */
  lemma NewTableIsCreated(rt: RecordType, toSnake: string -> string, order: seq<string>, locals: seq<Index>,
                          columnCatalog: Answer<Column>, indexCatalog: Answer<Index>, otherIndexCatalog: Answer<Index>,
                          engine: (nat, Ddl) -> Answer<Row>)
    requires LocalsOf(rt, toSnake, order, locals)
    requires DescTable(columnCatalog) == Ok([])
    requires forall k: nat, d :: engine(k, d).Sets?
    ensures var m := ModelOf(rt, toSnake, Validate(rt, toSnake).value);
      NewBaseModelWithCreated(rt, toSnake, order, columnCatalog, indexCatalog, engine)
        == Created(m, CreationPlan(m, locals))
    ensures NewBaseModelWithCreated(rt, toSnake, order, columnCatalog, indexCatalog, engine)
         == NewBaseModelWithCreated(rt, toSnake, order, columnCatalog, otherIndexCatalog, engine)
  {
    var m := ModelOf(rt, toSnake, Validate(rt, toSnake).value);
    ExecuteAll(CreationPlan(m, locals), engine, 0);
  }

  /** The catalog already agrees with the declaration: every declared column is
      there with the same base type and nothing else is; every declared index is
      there with the same uniqueness and every other index is protected. */
  predicate ColumnsMatch(m: BaseModel, remote: seq<Column>) {
    && (forall k :: 0 <= k < |m.columns| ==>
          m.columns[k].name in KeyBy(remote, NameOfColumn)
          && !Drifts(m.columns[k], KeyBy(remote, NameOfColumn)))
    && (forall k :: 0 <= k < |remote| ==> remote[k].name in TagSet(m.columns))
  }

  predicate IndexesMatch(locals: seq<Index>, remote: seq<Index>) {
    && (forall k :: 0 <= k < |locals| ==>
          ToIndexName(locals[k]) in KeyBy(remote, NameOfIndex)
          && !UniqueDrifts(locals[k], KeyBy(remote, NameOfIndex)))
    && (forall k :: 0 <= k < |remote| ==> Protected(remote[k].name) || remote[k].name in IndexNames(locals))
  }

  lemma HeadIn(xs: seq<Ddl>)
    requires |xs| > 0
    ensures xs[0] in xs
  {
  }

  lemma ColumnPhaseEmpty(m: BaseModel, remote: seq<Column>)
    ensures ColumnPhase(m, remote) == Plan([], None) <==> ColumnsMatch(m, remote)
  {
    var rm := KeyBy(remote, NameOfColumn);
    var cp := ColumnPlan(m.tableName, m.columns, rm);
    var drops := DropColumnPlan(m.tableName, remote, TagSet(m.columns));
    if ColumnsMatch(m, remote) {
      if |cp.statements| > 0 {
        HeadIn(cp.statements);
        assert false;
      }
      if |drops| > 0 {
        HeadIn(drops);
        assert false;
      }
    }
    if ColumnPhase(m, remote) == Plan([], None) {
      if !ColumnsMatch(m, remote) {
        assert false;
      }
    }
  }

  lemma IndexPhaseEmpty(m: BaseModel, locals: seq<Index>, remote: seq<Index>)
    ensures IndexPhase(m, locals, remote) == Plan([], None) <==> IndexesMatch(locals, remote)
  {
    var rm := KeyBy(remote, NameOfIndex);
    var ip := IndexCreatePlan(m.tableName, locals, rm);
    var drops := IndexDropPlan(remote, IndexNames(locals));
    if IndexesMatch(locals, remote) {
      if |ip.statements| > 0 {
        HeadIn(ip.statements);
        assert false;
      }
      if |drops| > 0 {
        HeadIn(drops);
        assert false;
      }
    }
    if IndexPhase(m, locals, remote) == Plan([], None) {
      if !IndexesMatch(locals, remote) {
        assert false;
      }
    }
  }

  /** On an existing table the constructor changes nothing, whatever the engine
      would answer, exactly when the catalog already agrees with the declaration. */
  lemma NoOpIffCatalogMatches(rt: RecordType, toSnake: string -> string, order: seq<string>, locals: seq<Index>,
                              remote: seq<Column>, remoteIndexes: seq<Index>, engine: (nat, Ddl) -> Answer<Row>)
    requires LocalsOf(rt, toSnake, order, locals)
    requires |remote| > 0
    ensures var m := ModelOf(rt, toSnake, Validate(rt, toSnake).value);
      (NewBaseModelWithCreated(rt, toSnake, order, Sets([remote]), Sets([remoteIndexes]), engine) == Reconciled(m, []))
        <==> ColumnsMatch(m, remote) && IndexesMatch(locals, remoteIndexes)
  {
    var m := ModelOf(rt, toSnake, Validate(rt, toSnake).value);
    var r := NewBaseModelWithCreated(rt, toSnake, order, Sets([remote]), Sets([remoteIndexes]), engine);
    ColumnPhaseEmpty(m, remote);
    IndexPhaseEmpty(m, locals, remoteIndexes);
    var plan := ColumnPhase(m, remote);
    var run := RunPlan(plan, engine, 0);
    if r == Reconciled(m, []) {
      assert Failure(run, plan.stop).None?;
      assert run.executed == [];
      var iplan := IndexPhase(m, locals, remoteIndexes);
      var irun := RunPlan(iplan, engine, 0);
      assert Failure(irun, iplan.stop).None?;
      assert irun.executed == [];
    }
  }
}
