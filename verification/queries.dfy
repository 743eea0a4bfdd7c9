/** The record operations of a `BaseModel` (basemodel.go): the statement each
    one sends and how it reads the engine's answer. The engine is an oracle
    from a call (text and positional arguments) to its answer. A record is the
    list of its field values in declaration order, and unmarshalling a row is
    taking it as the record. */
module Queries {
  import opened Results
  import opened Strings
  import opened Errors
  import opened Engine
  import opened Naming
  import opened Model

  // ------------------------------------------------------------ reading rows

  /** The first row of the first result set; no result set, and an empty first
      row, are both `sql.ErrNoRows`. */
  function ReadOne(sets: seq<seq<Row>>): (r: Result<Row, Error>)
    ensures r.Ok? <==> |sets| > 0 && |sets[0]| > 0 && |sets[0][0]| > 0
    ensures r.Ok? ==> r.value == sets[0][0]
    ensures r.Err? ==> r.error == NoRows
  {
    if |sets| == 0 then Err(NoRows)
    else
      var row := FirstRow(sets[0]);
      if |row| == 0 then Err(NoRows) else Ok(row)
  }

  // -------------------------------------------------------------- the lookups

  const ById := " where id()=$1"

  function FindCall(m: BaseModel, id: int): Call {
    Call(SelectSQL(m) + ById, [Int(id)])
  }

  /** `Find(id)`: an engine error is wrapped with the query text. */
  function Find(m: BaseModel, id: int, engine: Call -> Answer<Row>): (r: Result<Row, Error>)
    ensures var a := engine(FindCall(m, id));
      && (a.Failed? ==> r == Err(EngineAt(a.cause, SelectSQL(m) + ById)))
      && (a.Sets? ==> (r == Err(NoRows) <==> |a.sets| == 0 || |a.sets[0]| == 0 || |a.sets[0][0]| == 0))
      && (r.Ok? ==> a.Sets? && r.value == a.sets[0][0])
      && (a.Sets? && |a.sets| > 0 && |a.sets[0]| > 0 && |a.sets[0][0]| > 0 ==> r == Ok(a.sets[0][0]))
  {
    var call := FindCall(m, id);
    match engine(call)
    case Failed(cause) => Err(EngineAt(cause, call.query))
    case Sets(sets) => ReadOne(sets)
  }

  function SelectWhereCall(m: BaseModel, where: string, args: seq<Value>): Call {
    Call(SelectSQL(m) + ToWhere(where), args)
  }

  /** `FindWhere(where, args...)`: an engine error is returned as it is. */
  function FindWhere(m: BaseModel, where: string, args: seq<Value>, engine: Call -> Answer<Row>): (r: Result<Row, Error>)
    ensures var a := engine(SelectWhereCall(m, where, args));
      && (a.Failed? ==> r == Err(Engine(a.cause)))
      && (a.Sets? ==> (r == Err(NoRows) <==> |a.sets| == 0 || |a.sets[0]| == 0 || |a.sets[0][0]| == 0))
      && (r.Ok? ==> a.Sets? && r.value == a.sets[0][0])
      && (a.Sets? && |a.sets| > 0 && |a.sets[0]| > 0 && |a.sets[0][0]| > 0 ==> r == Ok(a.sets[0][0]))
  {
    match engine(SelectWhereCall(m, where, args))
    case Failed(cause) => Err(Engine(cause))
    case Sets(sets) => ReadOne(sets)
  }

  /** `QueryWhere(where, args...)`: every row of the first result set; only a
      missing result set is `sql.ErrNoRows`, so no match is an empty list. */
  function QueryWhere(m: BaseModel, where: string, args: seq<Value>, engine: Call -> Answer<Row>): (r: Result<seq<Row>, Error>)
    ensures var a := engine(SelectWhereCall(m, where, args));
      && (a.Failed? ==> r == Err(Engine(a.cause)))
      && (a.Sets? && |a.sets| == 0 ==> r == Err(NoRows))
      && (a.Sets? && |a.sets| > 0 ==> r == Ok(a.sets[0]))
  {
    match engine(SelectWhereCall(m, where, args))
    case Failed(cause) => Err(Engine(cause))
    case Sets(sets) => if |sets| == 0 then Err(NoRows) else Ok(sets[0])
  }

  /** FindWhere is the first record of QueryWhere, when that record has any
      values; when QueryWhere finds nothing, FindWhere reports `sql.ErrNoRows`. */
  lemma FindWhereIsFirstOfQueryWhere(m: BaseModel, where: string, args: seq<Value>, engine: Call -> Answer<Row>)
    ensures var q := QueryWhere(m, where, args, engine);
      q.Ok? && |q.value| > 0 && |q.value[0]| > 0 ==> FindWhere(m, where, args, engine) == Ok(q.value[0])
    ensures var q := QueryWhere(m, where, args, engine);
      q.Ok? && |q.value| == 0 ==> FindWhere(m, where, args, engine) == Err(NoRows)
    ensures var q := QueryWhere(m, where, args, engine);
      q.Err? ==> FindWhere(m, where, args, engine) == Err(q.error)
  {
    var a := engine(SelectWhereCall(m, where, args));
    if a.Sets? {
      ReadOneOfFirstSet(a.sets);
    }
  }

  /** Reading one record is taking the first row of the first result set. */
  lemma ReadOneOfFirstSet(sets: seq<seq<Row>>)
    ensures |sets| == 0 ==> ReadOne(sets) == Err(NoRows)
    ensures |sets| > 0 && |sets[0]| > 0 && |sets[0][0]| > 0 ==> ReadOne(sets) == Ok(sets[0][0])
    ensures |sets| > 0 && |sets[0]| == 0 ==> ReadOne(sets) == Err(NoRows)
  {
  }

  /** The id condition normalises to the suffix Find and Exists append. */
  lemma IdCondition()
    ensures ToWhere("id()=$1") == ById
  {
    var p := "id()=$1";
    assert p[0] == 'i';
    assert !HasPrefix(p, "where") by { assert p[..5][0] != "where"[0]; }
  }

  /** Find is FindWhere on `id()=$1` with the id as its one argument, except that
      Find wraps an engine error with the query text. */
  lemma FindIsFindWhereOnId(m: BaseModel, id: int, engine: Call -> Answer<Row>)
    ensures FindCall(m, id) == SelectWhereCall(m, "id()=$1", [Int(id)])
    ensures var a := engine(FindCall(m, id));
      a.Sets? ==> Find(m, id, engine) == FindWhere(m, "id()=$1", [Int(id)], engine)
    ensures var a := engine(FindCall(m, id));
      a.Failed? ==> (Find(m, id, engine) == Err(EngineAt(a.cause, FindCall(m, id).query))
                     && FindWhere(m, "id()=$1", [Int(id)], engine) == Err(Engine(a.cause)))
  {
    IdCondition();
  }

  // ------------------------------------------------------ existence and count

  /** An existence check: an empty first row (or no row) is `false`, not an error. */
  function ReadExists(a: Answer<Row>): (r: Result<bool, Error>)
    ensures a.Failed? ==> r == Err(Engine(a.cause))
    ensures a.Sets? && |a.sets| == 0 ==> r == Err(NoRows)
    ensures a.Sets? && |a.sets| > 0 ==> r == Ok(|a.sets[0]| > 0 && |a.sets[0][0]| > 0)
  {
    match a
    case Failed(cause) => Err(Engine(cause))
    case Sets(sets) => if |sets| == 0 then Err(NoRows) else Ok(|FirstRow(sets[0])| > 0)
  }

  function ExistsCall(m: BaseModel, id: int): Call {
    Call("select 1 from " + m.tableName + ById + " limit 1", [Int(id)])
  }

  /** `Exists(id)`. */
  function Exists(m: BaseModel, id: int, engine: Call -> Answer<Row>): (r: Result<bool, Error>)
    ensures var a := engine(ExistsCall(m, id));
      && (a.Failed? ==> r == Err(Engine(a.cause)))
      && (a.Sets? && |a.sets| == 0 ==> r == Err(NoRows))
      && (a.Sets? && |a.sets| > 0 ==> (r == Ok(true) <==> |a.sets[0]| > 0 && |a.sets[0][0]| > 0))
      && (a.Sets? && |a.sets| > 0 ==> r.Ok?)
  {
    ReadExists(engine(ExistsCall(m, id)))
  }

  function ExistsWhereCall(m: BaseModel, where: string, args: seq<Value>): Call {
    Call("select 1 from " + m.tableName + ToWhere(where) + " limit 1", args)
  }

  /** `ExistsWhere(where, args...)`. */
  function ExistsWhere(m: BaseModel, where: string, args: seq<Value>, engine: Call -> Answer<Row>): (r: Result<bool, Error>)
    ensures var a := engine(ExistsWhereCall(m, where, args));
      && (a.Failed? ==> r == Err(Engine(a.cause)))
      && (a.Sets? && |a.sets| == 0 ==> r == Err(NoRows))
      && (a.Sets? && |a.sets| > 0 ==> (r == Ok(true) <==> |a.sets[0]| > 0 && |a.sets[0][0]| > 0))
      && (a.Sets? && |a.sets| > 0 ==> r.Ok?)
  {
    ReadExists(engine(ExistsWhereCall(m, where, args)))
  }

  /** Exists is ExistsWhere on `id()=$1` with the id as its one argument. */
  lemma ExistsIsExistsWhereOnId(m: BaseModel, id: int, engine: Call -> Answer<Row>)
    ensures ExistsCall(m, id) == ExistsWhereCall(m, "id()=$1", [Int(id)])
    ensures Exists(m, id, engine) == ExistsWhere(m, "id()=$1", [Int(id)], engine)
  {
    IdCondition();
  }

  function CountCall(m: BaseModel, where: string, args: seq<Value>): Call {
    Call("select count() from " + m.tableName + ToWhere(where), args)
  }

  /** `CountWhere(where, args...)`: the first value of the first row, which the
      library then takes as an `int64`. */
  function CountWhere(m: BaseModel, where: string, args: seq<Value>, engine: Call -> Answer<Row>): (r: Result<Value, Error>)
    ensures var a := engine(CountCall(m, where, args));
      && (a.Failed? ==> r == Err(Engine(a.cause)))
      && (a.Sets? ==> (r == Err(NoRows) <==> |a.sets| == 0 || |a.sets[0]| == 0 || |a.sets[0][0]| == 0))
      && (r.Ok? ==> a.Sets? && r.value == a.sets[0][0][0])
      && (a.Sets? && |a.sets| > 0 && |a.sets[0]| > 0 && |a.sets[0][0]| > 0 ==> r == Ok(a.sets[0][0][0]))
  {
    match engine(CountCall(m, where, args))
    case Failed(cause) => Err(Engine(cause))
    case Sets(sets) =>
      match ReadOne(sets)
      case Err(e) => Err(e)
      case Ok(row) => Ok(row[0])
  }

  // ----------------------------------------------------------------- changes

  /** The statements that change rows only report the engine's error. */
  function Status(a: Answer<Row>): (r: Option<Error>)
    ensures r.None? <==> a.Sets?
    ensures a.Failed? ==> r == Some(Engine(a.cause))
  {
    match a
    case Failed(cause) => Some(Engine(cause))
    case Sets(_) => None
  }

  function UpdateCall(m: BaseModel, sets: string, where: string, args: seq<Value>): Call {
    Call("BEGIN TRANSACTION;update " + m.tableName + " set " + sets + ToWhere(where) + ";COMMIT;", args)
  }

  /** `UpdateSet(sets, where, args...)`. */
  function UpdateSet(m: BaseModel, sets: string, where: string, args: seq<Value>, engine: Call -> Answer<Row>): (r: Option<Error>)
    ensures r.None? <==> engine(UpdateCall(m, sets, where, args)).Sets?
    ensures engine(UpdateCall(m, sets, where, args)).Failed? ==> r == Some(Engine(engine(UpdateCall(m, sets, where, args)).cause))
  {
    Status(engine(UpdateCall(m, sets, where, args)))
  }

  function ClearCall(m: BaseModel): Call {
    Call("BEGIN TRANSACTION;truncate table " + m.tableName + ";COMMIT;", [])
  }

  /** `Clear()`. */
  function Clear(m: BaseModel, engine: Call -> Answer<Row>): (r: Option<Error>)
    ensures r.None? <==> engine(ClearCall(m)).Sets?
    ensures engine(ClearCall(m)).Failed? ==> r == Some(Engine(engine(ClearCall(m)).cause))
  {
    Status(engine(ClearCall(m)))
  }

  /** `Truncate()` is `Clear()`: it sends the same truncate statement. */
  function Truncate(m: BaseModel, engine: Call -> Answer<Row>): (r: Option<Error>)
    ensures r.None? <==> engine(ClearCall(m)).Sets?
    ensures engine(ClearCall(m)).Failed? ==> r == Some(Engine(engine(ClearCall(m)).cause))
  {
    Clear(m, engine)
  }

  /** `Delete(id)`: the transaction is opened and never committed. */
  function DeleteCall(m: BaseModel, id: int): Call {
    Call("BEGIN TRANSACTION;delete from " + m.tableName + ById, [Int(id)])
  }

  function Delete(m: BaseModel, id: int, engine: Call -> Answer<Row>): (r: Option<Error>)
    ensures r.None? <==> engine(DeleteCall(m, id)).Sets?
    ensures engine(DeleteCall(m, id)).Failed? ==> r == Some(Engine(engine(DeleteCall(m, id)).cause))
  {
    Status(engine(DeleteCall(m, id)))
  }

  /** `DeleteWhere(where, args...)`: the arguments are not passed on. */
  function DeleteWhereCall(m: BaseModel, where: string, args: seq<Value>): Call {
    Call("BEGIN TRANSACTION; delete from " + m.tableName + ToWhere(where) + ";COMMIT;", [])
  }

  function DeleteWhere(m: BaseModel, where: string, args: seq<Value>, engine: Call -> Answer<Row>): (r: Option<Error>)
    ensures r.None? <==> engine(DeleteWhereCall(m, where, args)).Sets?
    ensures engine(DeleteWhereCall(m, where, args)).Failed? ==> r == Some(Engine(engine(DeleteWhereCall(m, where, args)).cause))
  {
    Status(engine(DeleteWhereCall(m, where, args)))
  }

  /** Delete opens a transaction in its statement and never commits it. */
  lemma DeleteNeverCommits(m: BaseModel, id: int)
    ensures HasPrefix(DeleteCall(m, id).query, "BEGIN TRANSACTION;")
    ensures !HasSuffix(DeleteCall(m, id).query, ";COMMIT;")
  {
    var q := DeleteCall(m, id).query;
    var head := "BEGIN TRANSACTION;delete from " + m.tableName;
    assert q == head + ById;
    assert q[|q| - 1] == '1';
    assert q[..18] == head[..18];
  }

  /** DeleteWhere drops its arguments: whatever they are, the same call is sent,
      so a placeholder in the condition is never bound. */
  lemma DeleteWhereIgnoresArgs(m: BaseModel, where: string, args: seq<Value>, engine: Call -> Answer<Row>)
    ensures DeleteWhereCall(m, where, args).args == []
    ensures DeleteWhere(m, where, args, engine) == DeleteWhere(m, where, [], engine)
  {
  }

  // ----------------------------------------------------------------- inserts

  /** The statement Insert sends for a record: the insert text, and as its
      arguments the record's values at the positions `argsIndex` names. */
  function InsertCall(m: BaseModel, record: seq<Value>): (c: Call)
    requires |record| == |m.columns| + 1
    ensures c.query == InsertSQL(m)
    ensures |c.args| == |m.columns|
  {
    var ix := ArgsIndex(|m.columns|);
    Call(InsertSQL(m), seq(|ix|, k requires 0 <= k < |ix| => record[ix[k]]))
  }

  /** Placeholder `$k+1` gets the value of field `k+1`, the field column `k`
      comes from: the arguments are the record without its id. */
  lemma InsertArgumentsSkipTheId(m: BaseModel, record: seq<Value>)
    requires |record| == |m.columns| + 1
    ensures InsertCall(m, record).args == record[1..]
  {
  }

  /** `Insert(v)`: the record's type name must be the model's; an engine error
      is wrapped with the query text. `typeName` is the name of the record's
      type, after dereferencing a pointer. */
  function Insert(m: BaseModel, typeName: string, record: seq<Value>, engine: Call -> Answer<Row>): (r: Option<Error>)
    requires typeName == m.typeName ==> |record| == |m.columns| + 1
    ensures typeName != m.typeName ==> r == Some(WrongInsertType(typeName, m.tableName))
    ensures typeName == m.typeName ==> (r.None? <==> engine(InsertCall(m, record)).Sets?)
    ensures typeName == m.typeName && engine(InsertCall(m, record)).Failed? ==>
      r == Some(EngineAt(engine(InsertCall(m, record)).cause, InsertSQL(m)))
  {
    if typeName != m.typeName then Some(WrongInsertType(typeName, m.tableName))
    else
      var call := InsertCall(m, record);
      match engine(call)
      case Failed(cause) => Some(EngineAt(cause, call.query))
      case Sets(_) => None
  }

  /** What InsertAll is handed: something that is not a slice (its type name),
      or a slice of records whose element type, after dereferencing a pointer,
      has the given name. */
  datatype Batch = NotSlice(typeName: string) | SliceOf(elemType: string, records: seq<seq<Value>>)

  /** `InsertAll(vs)`: the batch is checked once, then the records are inserted
      one by one, stopping at the first failure. `engine(k, c)` answers call `c`
      made for the `k`-th record. `inserted` counts the records the engine took. */
  method InsertAll(m: BaseModel, batch: Batch, engine: (nat, Call) -> Answer<Row>) returns (err: Option<Error>, inserted: nat)
    requires batch.SliceOf? && batch.elemType == m.typeName ==>
      forall k :: 0 <= k < |batch.records| ==> |batch.records[k]| == |m.columns| + 1
    ensures batch.NotSlice? ==> err == Some(NotASlice(batch.typeName)) && inserted == 0
    ensures batch.SliceOf? && batch.elemType != m.typeName ==>
      err == Some(WrongInsertType(batch.elemType, m.tableName)) && inserted == 0
    ensures batch.SliceOf? && batch.elemType == m.typeName ==>
      && inserted <= |batch.records|
      && (forall k :: 0 <= k < inserted ==> engine(k, InsertCall(m, batch.records[k])).Sets?)
      && (err.None? <==> inserted == |batch.records|)
      && (err.Some? ==>
            var a := engine(inserted, InsertCall(m, batch.records[inserted]));
            a.Failed? && err == Some(EngineAt(a.cause, InsertSQL(m))))
  {
    if batch.NotSlice? {
      return Some(NotASlice(batch.typeName)), 0;
    }
    if batch.elemType != m.typeName {
      return Some(WrongInsertType(batch.elemType, m.tableName)), 0;
    }
    var records := batch.records;
    inserted := 0;
    while inserted < |records|
      invariant inserted <= |records|
      invariant forall k :: 0 <= k < inserted ==> engine(k, InsertCall(m, records[k])).Sets?
      decreases |records| - inserted
    {
      var k := inserted;
      var e := Insert(m, m.typeName, records[k], c => engine(k, c));
      if e.Some? {
        return e, inserted;
      }
      inserted := inserted + 1;
    }
    return None, inserted;
  }
}
