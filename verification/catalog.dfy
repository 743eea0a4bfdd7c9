/** What the engine's catalog does with each schema statement, and the theorem
    this account supports: after a constructor run that went through, a second
    run against the resulting catalog issues nothing.

    The account of the engine is an assumption of the model, not code of the
    library: a new table's columns are listed in declaration order with the
    first word of their type (the type without its default clause), and it has
    no index; a column is appended or removed by name; an index is appended
    under its canonical name on the statement's table, or removed by name.
    Column statements leave the indexes alone and index statements leave the
    columns alone. */
module Convergence {
  import opened Results
  import opened Strings
  import opened Collections
  import opened Engine
  import opened Indexes
  import opened Columns
  import opened Model
  import opened Reconcile

  /** The `__Column` and `__Index` rows of one table. */
  datatype Catalog = Catalog(columns: seq<Column>, indexes: seq<Index>)

  function Apply(d: Ddl, c: Catalog): Catalog {
    match d
    case CreateTable(t, cols) =>
      Catalog(seq(|cols|, k requires 0 <= k < |cols| => Column(t, k, cols[k].name, FirstToken(cols[k].qlType))), [])
    case AddColumn(t, name, qlType) =>
      c.(columns := c.columns + [Column(t, |c.columns|, name, FirstToken(qlType))])
    case DropColumn(_, name) =>
      c.(columns := Without(c.columns, NameOfColumn, name))
    case CreateIndex(t, idx) =>
      c.(indexes := c.indexes + [Index(t, idx.columnName, ToIndexName(idx.(tableName := t)), idx.isUnique)])
    case DropIndex(name) =>
      c.(indexes := Without(c.indexes, NameOfIndex, name))
  }

  function ApplyAll(ds: seq<Ddl>, c: Catalog): Catalog
    decreases |ds|
  {
    if |ds| == 0 then c else ApplyAll(ds[1..], Apply(ds[0], c))
  }

  // ------------------------------------------------------- what must hold after

  /** A declared column is in the catalog with its base type. */
  predicate ColumnPresent(col: ColumnDef, c: Catalog) {
    col.name in KeyBy(c.columns, NameOfColumn) && !Drifts(col, KeyBy(c.columns, NameOfColumn))
  }

  /** A declared index is in the catalog with its uniqueness. */
  predicate IndexPresent(idx: Index, c: Catalog) {
    ToIndexName(idx) in KeyBy(c.indexes, NameOfIndex) && !UniqueDrifts(idx, KeyBy(c.indexes, NameOfIndex))
  }

  /** The declared columns, with distinct names. */
  predicate WellDeclared(cols: seq<ColumnDef>) {
    Distinct(DbTags(cols))
  }

  /** The declared indexes: on the model's table, and no two with one name. */
  predicate WellIndexed(table: string, locals: seq<Index>) {
    && (forall k :: 0 <= k < |locals| ==> locals[k].tableName == table)
    && (forall i, j :: 0 <= i < |locals| && 0 <= j < |locals| && ToIndexName(locals[i]) == ToIndexName(locals[j]) ==> locals[i] == locals[j])
  }

  /** A statement that cannot undo a declared column: it adds a declared column,
      drops an undeclared one, or touches indexes only. */
  predicate KeepsColumns(d: Ddl, cols: seq<ColumnDef>) {
    match d
    case CreateTable(_, _) => false
    case AddColumn(_, name, qlType) => ColumnDef(name, qlType) in cols
    case DropColumn(_, name) => name !in TagSet(cols)
    case _ => true
  }

  /** A statement that cannot undo a declared index: it creates a declared index
      on its own table, drops an undeclared one, or touches columns only. */
  predicate KeepsIndexes(d: Ddl, locals: seq<Index>) {
    match d
    case CreateTable(_, _) => false
    case CreateIndex(t, idx) => idx in locals && idx.tableName == t
    case DropIndex(name) => name !in IndexNames(locals)
    case _ => true
  }

  lemma DistinctTagsAgree(cols: seq<ColumnDef>, a: ColumnDef, b: ColumnDef)
    requires WellDeclared(cols) && a in cols && b in cols && a.name == b.name
    ensures a == b
  {
    var i :| 0 <= i < |cols| && cols[i] == a;
    var j :| 0 <= j < |cols| && cols[j] == b;
    assert DbTags(cols)[i] == DbTags(cols)[j];
  }

  lemma ApplyKeepsColumn(d: Ddl, c: Catalog, cols: seq<ColumnDef>, col: ColumnDef)
    requires WellDeclared(cols) && col in cols && KeepsColumns(d, cols)
    requires ColumnPresent(col, c)
    ensures ColumnPresent(col, Apply(d, c))
  {
    match d
    case AddColumn(t, name, qlType) =>
      KeyBySnoc(c.columns, Column(t, |c.columns|, name, FirstToken(qlType)), NameOfColumn);
      if name == col.name {
        DistinctTagsAgree(cols, col, ColumnDef(name, qlType));
      }
    case DropColumn(_, name) =>
      KeyByWithout(c.columns, NameOfColumn, name);
      assert col.name in TagSet(cols) by {
        var i :| 0 <= i < |cols| && cols[i] == col;
      }
    case _ =>
  }

  lemma ApplyKeepsIndex(d: Ddl, c: Catalog, table: string, locals: seq<Index>, idx: Index)
    requires WellIndexed(table, locals) && idx in locals && KeepsIndexes(d, locals)
    requires IndexPresent(idx, c)
    ensures IndexPresent(idx, Apply(d, c))
  {
    match d
    case CreateIndex(t, other) =>
      assert other.(tableName := t) == other;
      KeyBySnoc(c.indexes, Index(t, other.columnName, ToIndexName(other), other.isUnique), NameOfIndex);
    case DropIndex(name) =>
      KeyByWithout(c.indexes, NameOfIndex, name);
      assert ToIndexName(idx) in IndexNames(locals) by {
        var i :| 0 <= i < |locals| && locals[i] == idx;
      }
    case _ =>
  }

  lemma {:induction false} ApplyAllKeepsColumn(ds: seq<Ddl>, c: Catalog, cols: seq<ColumnDef>, col: ColumnDef)
    requires WellDeclared(cols) && col in cols
    requires forall k :: 0 <= k < |ds| ==> KeepsColumns(ds[k], cols)
    requires ColumnPresent(col, c)
    ensures ColumnPresent(col, ApplyAll(ds, c))
    decreases |ds|
  {
    if |ds| > 0 {
      ApplyKeepsColumn(ds[0], c, cols, col);
      assert forall k :: 0 <= k < |ds[1..]| ==> ds[1..][k] == ds[k + 1];
      ApplyAllKeepsColumn(ds[1..], Apply(ds[0], c), cols, col);
    }
  }

  lemma {:induction false} ApplyAllKeepsIndex(ds: seq<Ddl>, c: Catalog, table: string, locals: seq<Index>, idx: Index)
    requires WellIndexed(table, locals) && idx in locals
    requires forall k :: 0 <= k < |ds| ==> KeepsIndexes(ds[k], locals)
    requires IndexPresent(idx, c)
    ensures IndexPresent(idx, ApplyAll(ds, c))
    decreases |ds|
  {
    if |ds| > 0 {
      ApplyKeepsIndex(ds[0], c, table, locals, idx);
      assert forall k :: 0 <= k < |ds[1..]| ==> ds[1..][k] == ds[k + 1];
      ApplyAllKeepsIndex(ds[1..], Apply(ds[0], c), table, locals, idx);
    }
  }

  /** A column added at step `i` is present at the end, if nothing after step `i`
      can undo it. */
  lemma {:induction false} AddedColumnPresent(ds: seq<Ddl>, c: Catalog, cols: seq<ColumnDef>, col: ColumnDef, i: nat)
    requires WellDeclared(cols) && col in cols
    requires i < |ds| && ds[i].AddColumn? && ds[i].name == col.name && ds[i].qlType == col.qlType
    requires forall k :: i < k < |ds| ==> KeepsColumns(ds[k], cols)
    ensures ColumnPresent(col, ApplyAll(ds, c))
    decreases |ds|
  {
    assert forall k :: 0 <= k < |ds[1..]| ==> ds[1..][k] == ds[k + 1];
    if i == 0 {
      var d := ds[0];
      KeyBySnoc(c.columns, Column(d.table, |c.columns|, col.name, FirstToken(col.qlType)), NameOfColumn);
      ApplyAllKeepsColumn(ds[1..], Apply(d, c), cols, col);
    } else {
      AddedColumnPresent(ds[1..], Apply(ds[0], c), cols, col, i - 1);
    }
  }

  /** An index created at step `i` is present at the end, if nothing after step
      `i` can undo it. */
  lemma {:induction false} CreatedIndexPresent(ds: seq<Ddl>, c: Catalog, table: string, locals: seq<Index>, idx: Index, i: nat)
    requires WellIndexed(table, locals) && idx in locals
    requires i < |ds| && ds[i] == CreateIndex(idx.tableName, idx)
    requires forall k :: i < k < |ds| ==> KeepsIndexes(ds[k], locals)
    ensures IndexPresent(idx, ApplyAll(ds, c))
    decreases |ds|
  {
    assert forall k :: 0 <= k < |ds[1..]| ==> ds[1..][k] == ds[k + 1];
    if i == 0 {
      assert idx.(tableName := idx.tableName) == idx;
      KeyBySnoc(c.indexes, Index(idx.tableName, idx.columnName, ToIndexName(idx), idx.isUnique), NameOfIndex);
      ApplyAllKeepsIndex(ds[1..], Apply(ds[0], c), table, locals, idx);
    } else {
      CreatedIndexPresent(ds[1..], Apply(ds[0], c), table, locals, idx, i - 1);
    }
  }

  // ------------------------------------------------------------- what remains

  /** What statements that add only declared columns leave in the column
      catalog: declared columns, and columns that were there before and that no
      statement dropped. */
  lemma {:induction false} ColumnsAfter(ds: seq<Ddl>, c: Catalog, cols: seq<ColumnDef>)
    requires forall k :: 0 <= k < |ds| ==> !ds[k].CreateTable? && (ds[k].AddColumn? ==> ds[k].name in TagSet(cols))
    ensures forall x :: x in ApplyAll(ds, c).columns ==>
      (x.name in TagSet(cols)
       || (x in c.columns && forall k :: 0 <= k < |ds| ==> !(ds[k].DropColumn? && ds[k].name == x.name)))
    decreases |ds|
  {
    if |ds| > 0 {
      var d := ds[0];
      var c1 := Apply(d, c);
      assert forall k :: 0 <= k < |ds[1..]| ==> ds[1..][k] == ds[k + 1];
      ColumnsAfter(ds[1..], c1, cols);
      forall x | x in c1.columns
        ensures x.name in TagSet(cols) || (x in c.columns && !(d.DropColumn? && d.name == x.name))
      {
        match d
        case DropColumn(_, n) =>
          WithoutKeeps(c.columns, NameOfColumn, n);
        case AddColumn(t, n, q) =>
          if x !in c.columns {
            assert x == Column(t, |c.columns|, n, FirstToken(q));
          }
        case _ =>
      }
    }
  }

  /** An index name the second run accepts in the catalog: declared, or protected. */
  predicate KnownIndexName(name: string, locals: seq<Index>) {
    name in IndexNames(locals) || Protected(name)
  }

  /** What statements that create only known indexes leave in the index catalog:
      known names, and indexes that were there before and that no statement
      dropped. */
  lemma {:induction false} IndexesAfter(ds: seq<Ddl>, c: Catalog, locals: seq<Index>)
    requires forall k :: 0 <= k < |ds| ==>
      (!ds[k].CreateTable?
       && (ds[k].CreateIndex? ==> KnownIndexName(ToIndexName(ds[k].index.(tableName := ds[k].table)), locals)))
    ensures forall x :: x in ApplyAll(ds, c).indexes ==>
      (KnownIndexName(x.name, locals)
       || (x in c.indexes && forall k :: 0 <= k < |ds| ==> !(ds[k].DropIndex? && ds[k].name == x.name)))
    decreases |ds|
  {
    if |ds| > 0 {
      var d := ds[0];
      var c1 := Apply(d, c);
      assert forall k :: 0 <= k < |ds[1..]| ==> ds[1..][k] == ds[k + 1];
      IndexesAfter(ds[1..], c1, locals);
      forall x | x in c1.indexes
        ensures KnownIndexName(x.name, locals) || (x in c.indexes && !(d.DropIndex? && d.name == x.name))
      {
        match d
        case DropIndex(n) =>
          WithoutKeeps(c.indexes, NameOfIndex, n);
        case CreateIndex(t, idx) =>
          if x !in c.indexes {
            assert x.name == ToIndexName(idx.(tableName := t));
          }
        case _ =>
      }
    }
  }

  /** A new table holds exactly the declared columns, with their base types, and
      no index. */
  lemma CreatedTableHasColumns(t: string, cols: seq<ColumnDef>, c: Catalog)
    requires WellDeclared(cols)
    ensures forall k :: 0 <= k < |cols| ==> ColumnPresent(cols[k], Apply(CreateTable(t, cols), c))
    ensures forall x :: x in Apply(CreateTable(t, cols), c).columns ==> x.name in TagSet(cols)
    ensures Apply(CreateTable(t, cols), c).indexes == []
  {
    var xs := Apply(CreateTable(t, cols), c).columns;
    forall k | 0 <= k < |cols| ensures ColumnPresent(cols[k], Apply(CreateTable(t, cols), c)) {
      forall j | k < j < |xs| ensures NameOfColumn(xs[j]) != NameOfColumn(xs[k]) {
        assert DbTags(cols)[j] != DbTags(cols)[k];
      }
      KeyByIsLast(xs, NameOfColumn, k);
    }
    forall x | x in xs ensures x.name in TagSet(cols) {
      var k :| 0 <= k < |xs| && xs[k] == x;
    }
  }

  /** After the creation plan the catalog agrees with the declaration. */
  lemma CreatedCatalogMatches(m: BaseModel, locals: seq<Index>, c: Catalog)
    requires WellDeclared(m.columns) && WellIndexed(m.tableName, locals)
    ensures ColumnsMatch(m, ApplyAll(CreationPlan(m, locals), c).columns)
    ensures IndexesMatch(locals, ApplyAll(CreationPlan(m, locals), c).indexes)
  {
    CreatedColumnsMatch(m, locals, c);
    CreatedIndexesMatch(m, locals, c);
  }

  lemma CreatedColumnsMatch(m: BaseModel, locals: seq<Index>, c: Catalog)
    requires WellDeclared(m.columns)
    ensures ColumnsMatch(m, ApplyAll(CreationPlan(m, locals), c).columns)
  {
    var t := m.tableName;
    var ds := CreationPlan(m, locals);
    var c1 := Apply(ds[0], c);
    var rest := ds[1..];
    var after := ApplyAll(ds, c);
    assert after == ApplyAll(rest, c1);
    assert forall k :: 0 <= k < |rest| ==> rest[k] == ds[k + 1] && rest[k].CreateIndex?;
    CreatedTableHasColumns(t, m.columns, c);
    forall k | 0 <= k < |m.columns| ensures ColumnPresent(m.columns[k], after) {
      ApplyAllKeepsColumn(rest, c1, m.columns, m.columns[k]);
    }
    ColumnsAfter(rest, c1, m.columns);
  }

  lemma CreatedIndexesMatch(m: BaseModel, locals: seq<Index>, c: Catalog)
    requires WellIndexed(m.tableName, locals)
    ensures IndexesMatch(locals, ApplyAll(CreationPlan(m, locals), c).indexes)
  {
    CreatedIndexesPresent(m, locals, c);
    CreatedIndexesKnown(m, locals, c);
  }

  lemma CreatedIndexesPresent(m: BaseModel, locals: seq<Index>, c: Catalog)
    requires WellIndexed(m.tableName, locals)
    ensures forall k :: 0 <= k < |locals| ==> IndexPresent(locals[k], ApplyAll(CreationPlan(m, locals), c))
  {
    var ds := CreationPlan(m, locals);
    forall k | 0 <= k < |locals| ensures IndexPresent(locals[k], ApplyAll(ds, c)) {
      CreatedIndexPresent(ds, c, m.tableName, locals, locals[k], k + 2);
    }
  }

  lemma CreatedIndexesKnown(m: BaseModel, locals: seq<Index>, c: Catalog)
    requires WellIndexed(m.tableName, locals)
    ensures var after := ApplyAll(CreationPlan(m, locals), c);
      forall k :: 0 <= k < |after.indexes| ==> KnownIndexName(after.indexes[k].name, locals)
  {
    var ds := CreationPlan(m, locals);
    var c1 := Apply(ds[0], c);
    var rest := ds[1..];
    var after := ApplyAll(rest, c1);
    assert ApplyAll(ds, c) == after;
    assert c1.indexes == [] by { assert ds[0] == CreateTable(m.tableName, m.columns); }
    CreationIndexesKnown(m, locals);
    IndexesAfter(rest, c1, locals);
    forall k | 0 <= k < |after.indexes| ensures KnownIndexName(after.indexes[k].name, locals) {
      assert after.indexes[k] in after.indexes;
    }
  }

  /** Every index the creation plan creates has a known name. */
  lemma CreationIndexesKnown(m: BaseModel, locals: seq<Index>)
    requires WellIndexed(m.tableName, locals)
    ensures var rest := CreationPlan(m, locals)[1..];
      forall k :: 0 <= k < |rest| ==>
        !rest[k].CreateTable?
        && (rest[k].CreateIndex? ==> KnownIndexName(ToIndexName(rest[k].index.(tableName := rest[k].table)), locals))
  {
    var t := m.tableName;
    var ds := CreationPlan(m, locals);
    var rest := ds[1..];
    forall k | 0 <= k < |rest|
      ensures !rest[k].CreateTable?
      ensures rest[k].CreateIndex? ==> KnownIndexName(ToIndexName(rest[k].index.(tableName := rest[k].table)), locals)
    {
      assert rest[k] == ds[k + 1];
      if k == 0 {
        PkeyIndexName(t, "", true);
        assert PkeyIndex.(tableName := t) == Index(t, PkeyColumn, "", true);
      } else {
        assert rest[k] == CreateIndex(t, locals[k - 1]);
        assert locals[k - 1].(tableName := t) == locals[k - 1];
      }
    }
  }

  /** The statements both phases issue when neither stops. */
  function PhaseStatements(m: BaseModel, locals: seq<Index>, c: Catalog): seq<Ddl> {
    ColumnPhase(m, c.columns).statements + IndexPhase(m, locals, c.indexes).statements
  }

  /** Nothing the two phases issue undoes a declared column or index. */
  lemma PhasesKeepDeclarations(m: BaseModel, locals: seq<Index>, c: Catalog)
    requires WellIndexed(m.tableName, locals)
    requires ColumnPhase(m, c.columns).stop.None?
    ensures forall k :: 0 <= k < |PhaseStatements(m, locals, c)| ==>
      KeepsColumns(PhaseStatements(m, locals, c)[k], m.columns) && KeepsIndexes(PhaseStatements(m, locals, c)[k], locals)
  {
    var t := m.tableName;
    var ds := PhaseStatements(m, locals, c);
    var cp := ColumnPlan(t, m.columns, KeyBy(c.columns, NameOfColumn));
    var ip := IndexCreatePlan(t, locals, KeyBy(c.indexes, NameOfIndex));
    ColumnPhaseDropsStrays(m, c.columns);
    IndexPhaseDropsStrays(m, locals, c.indexes);
    assert forall s :: s in ColumnPhase(m, c.columns).statements ==> s in cp.statements || s.DropColumn?;
    assert forall s :: s in IndexPhase(m, locals, c.indexes).statements ==> s in ip.statements || s.DropIndex?;
    forall k | 0 <= k < |ds| ensures KeepsColumns(ds[k], m.columns) && KeepsIndexes(ds[k], locals) {
      var s := ds[k];
      if s in ip.statements {
        var j :| 0 <= j < |locals| && locals[j] == s.index;
      }
    }
  }

  /** After both phases ran in full, the columns agree with the declaration. */
  lemma ReconciledColumnsMatch(m: BaseModel, locals: seq<Index>, c: Catalog)
    requires WellDeclared(m.columns) && WellIndexed(m.tableName, locals)
    requires ColumnPhase(m, c.columns).stop.None?
    ensures ColumnsMatch(m, ApplyAll(PhaseStatements(m, locals, c), c).columns)
  {
    ReconciledColumnsPresent(m, locals, c);
    ReconciledColumnsKnown(m, locals, c);
  }

  lemma ReconciledColumnsPresent(m: BaseModel, locals: seq<Index>, c: Catalog)
    requires WellDeclared(m.columns) && WellIndexed(m.tableName, locals)
    requires ColumnPhase(m, c.columns).stop.None?
    ensures forall k :: 0 <= k < |m.columns| ==> ColumnPresent(m.columns[k], ApplyAll(PhaseStatements(m, locals, c), c))
  {
    var t := m.tableName;
    var rc := KeyBy(c.columns, NameOfColumn);
    var cp := ColumnPlan(t, m.columns, rc);
    var ds := PhaseStatements(m, locals, c);
    assert forall s :: s in cp.statements ==> s in ds;
    PhasesKeepDeclarations(m, locals, c);
    forall k | 0 <= k < |m.columns| ensures ColumnPresent(m.columns[k], ApplyAll(ds, c)) {
      var col := m.columns[k];
      if col.name in rc {
        ApplyAllKeepsColumn(ds, c, m.columns, col);
      } else {
        var s := AddColumn(t, col.name, col.qlType);
        assert s in ds;
        var i :| 0 <= i < |ds| && ds[i] == s;
        AddedColumnPresent(ds, c, m.columns, col, i);
      }
    }
  }

  lemma ReconciledColumnsKnown(m: BaseModel, locals: seq<Index>, c: Catalog)
    requires WellIndexed(m.tableName, locals)
    requires ColumnPhase(m, c.columns).stop.None?
    ensures var after := ApplyAll(PhaseStatements(m, locals, c), c);
      forall k :: 0 <= k < |after.columns| ==> after.columns[k].name in TagSet(m.columns)
  {
    var t := m.tableName;
    var cp := ColumnPlan(t, m.columns, KeyBy(c.columns, NameOfColumn));
    var drops := DropColumnPlan(t, c.columns, TagSet(m.columns));
    var ds := PhaseStatements(m, locals, c);
    assert forall s :: s in drops ==> s in ds;
    forall x | x in c.columns && x.name !in TagSet(m.columns)
      ensures exists k :: 0 <= k < |ds| && ds[k].DropColumn? && ds[k].name == x.name
    {
      var j :| 0 <= j < |c.columns| && c.columns[j] == x;
      var s := DropColumn(t, x.name);
      assert s in ds;
      var i :| 0 <= i < |ds| && ds[i] == s;
    }
    PhaseAddsDeclaredColumns(m, locals, c);
    ColumnsAfter(ds, c, m.columns);
    var after := ApplyAll(ds, c);
    forall k | 0 <= k < |after.columns| ensures after.columns[k].name in TagSet(m.columns) {
      assert after.columns[k] in after.columns;
    }
  }

  /** Both phases add only declared columns and never create a table. */
  lemma PhaseAddsDeclaredColumns(m: BaseModel, locals: seq<Index>, c: Catalog)
    requires WellIndexed(m.tableName, locals)
    requires ColumnPhase(m, c.columns).stop.None?
    ensures var ds := PhaseStatements(m, locals, c);
      forall k :: 0 <= k < |ds| ==> !ds[k].CreateTable? && (ds[k].AddColumn? ==> ds[k].name in TagSet(m.columns))
  {
    var ds := PhaseStatements(m, locals, c);
    PhasesKeepDeclarations(m, locals, c);
    forall k | 0 <= k < |ds| ensures !ds[k].CreateTable? && (ds[k].AddColumn? ==> ds[k].name in TagSet(m.columns)) {
      assert KeepsColumns(ds[k], m.columns);
    }
  }

  /** After both phases ran in full, the indexes agree with the declaration. */
  lemma ReconciledIndexesMatch(m: BaseModel, locals: seq<Index>, c: Catalog)
    requires WellDeclared(m.columns) && WellIndexed(m.tableName, locals)
    requires ColumnPhase(m, c.columns).stop.None? && IndexPhase(m, locals, c.indexes).stop.None?
    ensures IndexesMatch(locals, ApplyAll(PhaseStatements(m, locals, c), c).indexes)
  {
    ReconciledIndexesPresent(m, locals, c);
    ReconciledIndexesKnown(m, locals, c);
  }

  lemma ReconciledIndexesPresent(m: BaseModel, locals: seq<Index>, c: Catalog)
    requires WellIndexed(m.tableName, locals)
    requires ColumnPhase(m, c.columns).stop.None? && IndexPhase(m, locals, c.indexes).stop.None?
    ensures forall k :: 0 <= k < |locals| ==> IndexPresent(locals[k], ApplyAll(PhaseStatements(m, locals, c), c))
  {
    var t := m.tableName;
    var ri := KeyBy(c.indexes, NameOfIndex);
    var ip := IndexCreatePlan(t, locals, ri);
    var ds := PhaseStatements(m, locals, c);
    assert forall s :: s in ip.statements ==> s in ds;
    PhasesKeepDeclarations(m, locals, c);
    forall k | 0 <= k < |locals| ensures IndexPresent(locals[k], ApplyAll(ds, c)) {
      var idx := locals[k];
      if ToIndexName(idx) in ri {
        ApplyAllKeepsIndex(ds, c, t, locals, idx);
      } else {
        var s := CreateIndex(t, idx);
        assert s in ds;
        var i :| 0 <= i < |ds| && ds[i] == s;
        CreatedIndexPresent(ds, c, t, locals, idx, i);
      }
    }
  }

  lemma ReconciledIndexesKnown(m: BaseModel, locals: seq<Index>, c: Catalog)
    requires WellIndexed(m.tableName, locals)
    requires ColumnPhase(m, c.columns).stop.None? && IndexPhase(m, locals, c.indexes).stop.None?
    ensures var after := ApplyAll(PhaseStatements(m, locals, c), c);
      forall k :: 0 <= k < |after.indexes| ==> KnownIndexName(after.indexes[k].name, locals)
  {
    var t := m.tableName;
    var drops := IndexDropPlan(c.indexes, IndexNames(locals));
    var ds := PhaseStatements(m, locals, c);
    assert forall s :: s in drops ==> s in ds;
    forall x | x in c.indexes && !KnownIndexName(x.name, locals)
      ensures exists k :: 0 <= k < |ds| && ds[k].DropIndex? && ds[k].name == x.name
    {
      var j :| 0 <= j < |c.indexes| && c.indexes[j] == x;
      var s := DropIndex(x.name);
      assert s in ds;
      var i :| 0 <= i < |ds| && ds[i] == s;
    }
    PhaseCreatesKnownIndexes(m, locals, c);
    IndexesAfter(ds, c, locals);
    var after := ApplyAll(ds, c);
    forall k | 0 <= k < |after.indexes| ensures KnownIndexName(after.indexes[k].name, locals) {
      assert after.indexes[k] in after.indexes;
    }
  }

  /** Both phases create only declared indexes and never create a table. */
  lemma PhaseCreatesKnownIndexes(m: BaseModel, locals: seq<Index>, c: Catalog)
    requires WellIndexed(m.tableName, locals)
    requires ColumnPhase(m, c.columns).stop.None?
    ensures var ds := PhaseStatements(m, locals, c);
      forall k :: 0 <= k < |ds| ==>
        !ds[k].CreateTable?
        && (ds[k].CreateIndex? ==> KnownIndexName(ToIndexName(ds[k].index.(tableName := ds[k].table)), locals))
  {
    var ds := PhaseStatements(m, locals, c);
    PhasesKeepDeclarations(m, locals, c);
    forall k | 0 <= k < |ds|
      ensures !ds[k].CreateTable?
      ensures ds[k].CreateIndex? ==> KnownIndexName(ToIndexName(ds[k].index.(tableName := ds[k].table)), locals)
    {
      assert KeepsIndexes(ds[k], locals);
      if ds[k].CreateIndex? {
        var j :| 0 <= j < |locals| && locals[j] == ds[k].index;
        assert ds[k].index.(tableName := ds[k].table) == locals[j];
      }
    }
  }

  // ------------------------------------------------------------ the theorem

  /** Every indexed name is a column name. */
  lemma IndexKeysAreColumns(rt: RecordType, toSnake: string -> string)
    requires Validate(rt, toSnake).Ok?
    ensures var d := Validate(rt, toSnake).value;
      forall x :: x in d.indexKeys ==> x in d.indexTags && x in DbTags(d.columns)
  {
    var d := Validate(rt, toSnake).value;
    assert WellKeyed(d);
    forall x | x in d.indexKeys ensures x in d.indexTags && x in DbTags(d.columns) {
      var i :| 0 <= i < |d.indexKeys| && d.indexKeys[i] == x;
      IndexedTagIsColumn(rt, toSnake, x);
    }
  }

  /** A column named in the index map is one of the declared columns. */
  lemma IndexedTagIsColumn(rt: RecordType, toSnake: string -> string, x: string)
    requires Validate(rt, toSnake).Ok? && x in Validate(rt, toSnake).value.indexTags
    ensures x in DbTags(Validate(rt, toSnake).value.columns)
  {
    var d := Validate(rt, toSnake).value;
    var j := IndexedFieldOf(rt, toSnake, x);
    assert DbTags(d.columns)[j - 1] == x;
  }

  /** The field an index tag of an accepted declaration comes from. */
  lemma IndexedFieldOf(rt: RecordType, toSnake: string -> string, x: string) returns (j: nat)
    requires Validate(rt, toSnake).Ok? && x in Validate(rt, toSnake).value.indexTags
    ensures 1 <= j < |rt.fields| && IndexedAs(rt.fields[j], x)
    ensures |Validate(rt, toSnake).value.columns| == |rt.fields| - 1
    ensures Validate(rt, toSnake).value.columns[j - 1].name == x
  {
    j :| 1 <= j < |rt.fields| && IndexedAs(rt.fields[j], x);
    assert Validate(rt, toSnake).value.columns[j - 1] == ColumnOf(rt.fields[j], toSnake);
  }

  /** On one table, two indexes on ordinary columns share a name only when they
      share the column. */
  lemma SameNameSameColumn(a: Index, b: Index)
    requires a.tableName == b.tableName && a.columnName != PkeyColumn && b.columnName != PkeyColumn
    requires ToIndexName(a) == ToIndexName(b)
    ensures a.columnName == b.columnName
  {
    if a.columnName != b.columnName {
      ToIndexNameInjective(a, b);
      assert false;
    }
  }

  /** An index list built over ordinary columns sits on its table, and no two
      of its indexes share a name. */
  lemma IndexListWellIndexed(indexes: map<string, string>, order: seq<string>, table: string, locals: seq<Index>)
    requires forall k :: k in order ==> k in indexes && k != PkeyColumn
    requires ToIndexList(indexes, order, table) == Ok(locals)
    ensures WellIndexed(table, locals)
  {
    assert forall k :: 0 <= k < |order| ==> order[k] in order;
    forall i, j | 0 <= i < |locals| && 0 <= j < |locals| && ToIndexName(locals[i]) == ToIndexName(locals[j])
      ensures locals[i] == locals[j]
    {
      SameNameSameColumn(locals[i], locals[j]);
    }
  }

  /** The declared indexes of an accepted declaration sit on the model's table,
      and no two share a name, as long as no column is called `id()`. */
  lemma LocalsWellIndexed(rt: RecordType, toSnake: string -> string, order: seq<string>, locals: seq<Index>)
    requires LocalsOf(rt, toSnake, order, locals)
    requires PkeyColumn !in DbTags(Validate(rt, toSnake).value.columns)
    ensures WellIndexed(ModelOf(rt, toSnake, Validate(rt, toSnake).value).tableName, locals)
  {
    var d := Validate(rt, toSnake).value;
    IndexKeysAreColumns(rt, toSnake);
    IndexListWellIndexed(d.indexTags, Enumerate(order, d.indexKeys), ModelOf(rt, toSnake, d).tableName, locals);
  }

  /** Whether the catalog matches depends on the declared indexes only as a set. */
  lemma IndexesMatchSameMembers(a: seq<Index>, b: seq<Index>, remote: seq<Index>)
    requires forall x :: x in a <==> x in b
    ensures IndexesMatch(a, remote) <==> IndexesMatch(b, remote)
  {
    assert IndexNames(a) == IndexNames(b) by {
      forall n | n in IndexNames(a) ensures n in IndexNames(b) {
        var k :| 0 <= k < |a| && ToIndexName(a[k]) == n;
        assert a[k] in a;
        var j :| 0 <= j < |b| && b[j] == a[k];
      }
      forall n | n in IndexNames(b) ensures n in IndexNames(a) {
        var k :| 0 <= k < |b| && ToIndexName(b[k]) == n;
        assert b[k] in b;
        var j :| 0 <= j < |a| && a[j] == b[k];
      }
    }
    var rm := KeyBy(remote, NameOfIndex);
    assert (forall k :: 0 <= k < |a| ==> ToIndexName(a[k]) in rm && !UniqueDrifts(a[k], rm))
       <==> (forall k :: 0 <= k < |b| ==> ToIndexName(b[k]) in rm && !UniqueDrifts(b[k], rm)) by {
      assert forall k :: 0 <= k < |a| ==> a[k] in b;
      assert forall k :: 0 <= k < |b| ==> b[k] in a;
    }
  }

  /** Reconciling twice changes nothing: once the constructor went through
      against a catalog, with an engine that accepted every statement, a second
      constructor run against the catalog those statements produce issues no
      statement and returns the same model, whatever the engine and whatever
      order the runtime picks for the index tags this time. */
  lemma ReconcilingTwiceChangesNothing(rt: RecordType, toSnake: string -> string, order: seq<string>, order2: seq<string>,
                                       c: Catalog, engine: (nat, Ddl) -> Answer<Row>, engine2: (nat, Ddl) -> Answer<Row>)
    requires Validate(rt, toSnake).Ok?
    requires var cols := Validate(rt, toSnake).value.columns;
      |cols| > 0 && WellDeclared(cols) && PkeyColumn !in DbTags(cols)
    requires forall k: nat, d :: engine(k, d).Sets?
    requires !NewBaseModelWithCreated(rt, toSnake, order, Sets([c.columns]), Sets([c.indexes]), engine).Aborted?
    ensures var r := NewBaseModelWithCreated(rt, toSnake, order, Sets([c.columns]), Sets([c.indexes]), engine);
      var after := ApplyAll(r.executed, c);
      NewBaseModelWithCreated(rt, toSnake, order2, Sets([after.columns]), Sets([after.indexes]), engine2)
        == Reconciled(r.model, [])
  {
    var d := Validate(rt, toSnake).value;
    var m := ModelOf(rt, toSnake, d);
    var r := NewBaseModelWithCreated(rt, toSnake, order, Sets([c.columns]), Sets([c.indexes]), engine);
    var e, e2 := Enumerate(order, d.indexKeys), Enumerate(order2, d.indexKeys);
    ToIndexListSameKeys(d.indexTags, e, e2, m.tableName);
    var locals := ToIndexList(d.indexTags, e, m.tableName).value;
    var locals2 := ToIndexList(d.indexTags, e2, m.tableName).value;
    LocalsWellIndexed(rt, toSnake, order, locals);
    if |c.columns| == 0 {
      ExecuteAll(CreationPlan(m, locals), engine, 0);
      CreatedCatalogMatches(m, locals, c);
    } else {
      var cplan := ColumnPhase(m, c.columns);
      var iplan := IndexPhase(m, locals, c.indexes);
      ExecuteAll(cplan.statements, engine, 0);
      ExecuteAll(iplan.statements, engine, |cplan.statements|);
      assert r.executed == PhaseStatements(m, locals, c);
      ReconciledColumnsMatch(m, locals, c);
      ReconciledIndexesMatch(m, locals, c);
    }
    var after := ApplyAll(r.executed, c);
    KeyByDomain(after.columns, NameOfColumn);
    assert m.columns[0].name in KeyBy(after.columns, NameOfColumn);
    IndexesMatchSameMembers(locals, locals2, after.indexes);
    NoOpIffCatalogMatches(rt, toSnake, order2, locals2, after.columns, after.indexes, engine2);
  }
}
