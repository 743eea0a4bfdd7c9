/** The record declaration and the statements derived from it (basemodel.go):
    how a struct's fields become the table's columns and the declared indexes,
    and the CREATE TABLE, INSERT and SELECT texts built from those columns. */
module Model {
  import opened Results
  import opened Strings
  import opened DataTypes
  import opened Errors
  import opened Naming
  import Collections

  /** A struct field as reflection reports it: its Go name, its `ql` and `index`
      tags (absent when the field has no such tag) and its type. */
  datatype Field = Field(name: string, qlTag: Option<string>, indexTag: Option<string>, ty: FieldType)

  /** The record type handed to the constructor: its bare name (`User`), the name
      `Type.String()` prints (`main.User`) and its fields in declaration order. */
  datatype RecordType = RecordType(name: string, qualifiedName: string, fields: seq<Field>)

  /** One local column: the `ql` tag and the mapped column type. */
  datatype ColumnDef = ColumnDef(name: string, qlType: string)

  /** What the field loop collects: the columns in field order, the `index` tag of
      every indexed column (a later field with the same tag overwrites an earlier
      one), and the indexed column names, each placed where its last field puts it. */
  datatype Declaration = Declaration(columns: seq<ColumnDef>, indexTags: map<string, string>, indexKeys: seq<string>)

  /** The part of a `BaseModel` the statements depend on; the connection pool is
      not part of the model. */
  datatype BaseModel = BaseModel(typeName: string, tableName: string, columns: seq<ColumnDef>)

  /** The index keys list the map's names, each once. */
  predicate WellKeyed(d: Declaration) {
    Collections.Distinct(d.indexKeys)
    && (forall i :: 0 <= i < |d.indexKeys| ==> d.indexKeys[i] in d.indexTags)
    && (forall c :: c in d.indexTags ==> c in d.indexKeys)
  }

  /** `dbTags`. */
  function DbTags(cols: seq<ColumnDef>): seq<string> {
    seq(|cols|, k requires 0 <= k < |cols| => cols[k].name)
  }

  /** Field 0 must be tagged `id` and be an int64 kind. */
  predicate FirstFieldAccepted(f: Field) {
    f.qlTag == Some("id") && IsInt64Kind(f.ty)
  }

  /** Any other field must be tagged, its tag must be its own snake form, and its
      type must map to a column type. */
  predicate FieldAccepted(f: Field, toSnake: string -> string) {
    f.qlTag.Some? && toSnake(f.qlTag.value) == f.qlTag.value && ToQlType(f.ty, f.qlTag.value).Ok?
  }

  /** The three checks, in the order the loop makes them. */
  function FieldError(f: Field, toSnake: string -> string): Error
    requires !FieldAccepted(f, toSnake)
  {
    if f.qlTag.None? then MissingQlTag(f.name)
    else if toSnake(f.qlTag.value) != f.qlTag.value then NotSnakeCase(f.name)
    else FieldType(f.name, ToQlType(f.ty, f.qlTag.value).error)
  }

  function ColumnOf(f: Field, toSnake: string -> string): ColumnDef
    requires FieldAccepted(f, toSnake)
  {
    ColumnDef(f.qlTag.value, ToQlType(f.ty, f.qlTag.value).value)
  }

  /** The field declares an index on column `c`. */
  predicate IndexedAs(f: Field, c: string) {
    f.qlTag == Some(c) && f.indexTag.Some?
  }

  predicate DeclarationAccepted(fields: seq<Field>, toSnake: string -> string) {
    |fields| == 0
    || (FirstFieldAccepted(fields[0]) && forall j :: 1 <= j < |fields| ==> FieldAccepted(fields[j], toSnake))
  }

  /** One accepted field in front of the declaration of the fields after it: its
      column comes first, and its index tag, if any, is overwritten by a later
      field's tag for the same column. */
  function Prepend(f: Field, toSnake: string -> string, rest: Declaration): (d: Declaration)
    requires FieldAccepted(f, toSnake) && WellKeyed(rest)
    ensures WellKeyed(d)
    ensures d.columns == [ColumnOf(f, toSnake)] + rest.columns
    ensures forall c :: c in d.indexTags <==> IndexedAs(f, c) || c in rest.indexTags
  {
    var tag := f.qlTag.value;
    if f.indexTag.Some? then
      var keys := if tag in rest.indexTags then rest.indexKeys else [tag] + rest.indexKeys;
      assert Collections.Distinct(keys) by {
        if tag !in rest.indexTags {
          forall a, b | 0 <= a < b < |keys| ensures keys[a] != keys[b] {
            if a > 0 {
              assert keys[a] == rest.indexKeys[a - 1] && keys[b] == rest.indexKeys[b - 1];
            } else {
              assert keys[b] == rest.indexKeys[b - 1];
            }
          }
        }
      }
      Declaration([ColumnOf(f, toSnake)] + rest.columns, map[tag := f.indexTag.value] + rest.indexTags, keys)
    else
      Declaration([ColumnOf(f, toSnake)] + rest.columns, rest.indexTags, rest.indexKeys)
  }

  /** The declaration of fields `i` on: well keyed, one column per field in
      field order, and an index tag exactly for the columns some field indexes. */
  ghost predicate DeclaresFrom(fields: seq<Field>, i: nat, toSnake: string -> string, d: Declaration)
    requires 1 <= i <= |fields|
  {
    && WellKeyed(d)
    && |d.columns| == |fields| - i
    && (forall j :: i <= j < |fields| ==> FieldAccepted(fields[j], toSnake) && d.columns[j - i] == ColumnOf(fields[j], toSnake))
    && forall c :: c in d.indexTags <==> exists j :: i <= j < |fields| && IndexedAs(fields[j], c)
  }

  /** Field `j` is the first rejected field from field `i` on, and `e` is its error. */
  predicate RejectedAt(fields: seq<Field>, i: nat, toSnake: string -> string, e: Error, j: int) {
    && i <= j < |fields| && !FieldAccepted(fields[j], toSnake)
    && e == FieldError(fields[j], toSnake)
    && forall k :: i <= k < j ==> FieldAccepted(fields[k], toSnake)
  }

  /** The field loop from field `i` on. */
  function ValidateFrom(fields: seq<Field>, i: nat, toSnake: string -> string): (r: Result<Declaration, Error>)
    requires 1 <= i <= |fields|
    ensures r.Ok? <==> forall j :: i <= j < |fields| ==> FieldAccepted(fields[j], toSnake)
    ensures r.Ok? ==> DeclaresFrom(fields, i, toSnake, r.value)
    ensures r.Err? ==> exists j :: i <= j < |fields| && RejectedAt(fields, i, toSnake, r.error, j)
    decreases |fields| - i
  {
    if i == |fields| then Ok(Declaration([], map[], []))
    else if !FieldAccepted(fields[i], toSnake) then
      var e := FieldError(fields[i], toSnake);
      assert RejectedAt(fields, i, toSnake, e, i);
      Err(e)
    else
      match ValidateFrom(fields, i + 1, toSnake)
      case Err(e) =>
        RejectedLater(fields, i, i + 1, toSnake, e);
        Err(e)
      case Ok(rest) =>
        PrependFromField(fields, i, toSnake, rest);
        Ok(Prepend(fields[i], toSnake, rest))
  }

  /** A field rejected after an accepted field `i` is the first rejected from `i` on. */
  lemma RejectedLater(fields: seq<Field>, i: nat, next: nat, toSnake: string -> string, e: Error)
    requires 1 <= i < |fields| && next == i + 1 && FieldAccepted(fields[i], toSnake)
    requires exists j :: next <= j < |fields| && RejectedAt(fields, next, toSnake, e, j)
    ensures exists j :: i <= j < |fields| && RejectedAt(fields, i, toSnake, e, j)
  {
    var j :| next <= j < |fields| && RejectedAt(fields, next, toSnake, e, j);
    assert RejectedAt(fields, i, toSnake, e, j);
  }

  /** Field `i` in front of the declaration of the fields after it declares
      the fields from `i` on. */
  lemma PrependFromField(fields: seq<Field>, i: nat, toSnake: string -> string, rest: Declaration)
    requires 1 <= i < |fields| && FieldAccepted(fields[i], toSnake)
    requires DeclaresFrom(fields, i + 1, toSnake, rest)
    ensures DeclaresFrom(fields, i, toSnake, Prepend(fields[i], toSnake, rest))
  {
    var d := Prepend(fields[i], toSnake, rest);
    forall j | i <= j < |fields| ensures FieldAccepted(fields[j], toSnake) && d.columns[j - i] == ColumnOf(fields[j], toSnake) {
      if j > i {
        assert d.columns[j - i] == rest.columns[j - (i + 1)];
      }
    }
    forall c | c in d.indexTags ensures exists j :: i <= j < |fields| && IndexedAs(fields[j], c) {
      if !IndexedAs(fields[i], c) {
        assert c in rest.indexTags;
      }
    }
    forall c | exists j :: i <= j < |fields| && IndexedAs(fields[j], c) ensures c in d.indexTags {
      var j :| i <= j < |fields| && IndexedAs(fields[j], c);
      if j > i {
        assert c in rest.indexTags;
      }
    }
  }

  /** The whole field loop: field 0 is only checked for the `id int64` shape;
      every other field becomes a column. */
  function Validate(rt: RecordType, toSnake: string -> string): (r: Result<Declaration, Error>)
    ensures r.Ok? <==> DeclarationAccepted(rt.fields, toSnake)
    ensures r.Ok? ==> WellKeyed(r.value)
    ensures r.Ok? ==> (|r.value.columns| == (if |rt.fields| == 0 then 0 else |rt.fields| - 1)
      && forall k :: 0 <= k < |r.value.columns| ==> r.value.columns[k] == ColumnOf(rt.fields[k + 1], toSnake))
    ensures r.Ok? ==> forall c :: c in r.value.indexTags <==> exists j :: 1 <= j < |rt.fields| && IndexedAs(rt.fields[j], c)
    ensures |rt.fields| > 0 && rt.fields[0].qlTag.None? ==> r == Err(MissingQlTag(rt.fields[0].name))
    ensures |rt.fields| > 0 && rt.fields[0].qlTag.Some? && !FirstFieldAccepted(rt.fields[0]) ==> r == Err(FirstFieldNotId)
    ensures r.Err? && FirstFieldAccepted(rt.fields[0]) ==>
      exists j :: (1 <= j < |rt.fields| && !FieldAccepted(rt.fields[j], toSnake)
        && r.error == FieldError(rt.fields[j], toSnake)
        && forall k :: 1 <= k < j ==> FieldAccepted(rt.fields[k], toSnake))
  {
    if |rt.fields| == 0 then Ok(Declaration([], map[], []))
    else if rt.fields[0].qlTag.None? then Err(MissingQlTag(rt.fields[0].name))
    else if !FirstFieldAccepted(rt.fields[0]) then Err(FirstFieldNotId)
    else ValidateFrom(rt.fields, 1, toSnake)
  }

  /** When several fields declare an index on the same column, the tag of the last
      one is the one kept. */
  lemma {:induction false} IndexTagIsLast(fields: seq<Field>, i: nat, toSnake: string -> string, j: nat)
    requires 1 <= i <= j < |fields|
    requires ValidateFrom(fields, i, toSnake).Ok?
    requires fields[j].qlTag.Some? && fields[j].indexTag.Some?
    requires forall k :: j < k < |fields| ==> !IndexedAs(fields[k], fields[j].qlTag.value)
    ensures ValidateFrom(fields, i, toSnake).value.indexTags[fields[j].qlTag.value] == fields[j].indexTag.value
    decreases |fields| - i
  {
    var c := fields[j].qlTag.value;
    if i < j {
      IndexTagIsLast(fields, i + 1, toSnake, j);
      var rest := ValidateFrom(fields, i + 1, toSnake).value;
      assert c in rest.indexTags;
    } else {
      var rest := ValidateFrom(fields, i + 1, toSnake);
      assert IndexedAs(fields[j], c);
      assert c !in rest.value.indexTags;
    }
  }

  /** A camel-cased tag on a later field is rejected, naming that field, when the
      fields before it are fine. */
  lemma CamelCaseTagRejected(rt: RecordType, toSnake: string -> string, j: nat)
    requires 1 <= j < |rt.fields| && FirstFieldAccepted(rt.fields[0])
    requires forall k :: 1 <= k < j ==> FieldAccepted(rt.fields[k], toSnake)
    requires rt.fields[j].qlTag.Some? && toSnake(rt.fields[j].qlTag.value) != rt.fields[j].qlTag.value
    ensures Validate(rt, toSnake) == Err(NotSnakeCase(rt.fields[j].name))
  {
    var r := Validate(rt, toSnake);
    assert !FieldAccepted(rt.fields[j], toSnake);
    assert r.Err?;
    var j' :| 1 <= j' < |rt.fields| && !FieldAccepted(rt.fields[j'], toSnake)
      && r.error == FieldError(rt.fields[j'], toSnake)
      && forall k :: 1 <= k < j' ==> FieldAccepted(rt.fields[k], toSnake);
  }

  /** The model the constructor returns for an accepted declaration. */
  function ModelOf(rt: RecordType, toSnake: string -> string, d: Declaration): BaseModel {
    BaseModel(rt.qualifiedName, ToTableName(toSnake, rt.name), d.columns)
  }

  // ---------------------------------------------------------------- statements

  /** `name type`, one per column. */
  function ColumnDefinitions(cols: seq<ColumnDef>): (defs: seq<string>)
    ensures |defs| == |cols|
  {
    seq(|cols|, k requires 0 <= k < |cols| => cols[k].name + " " + cols[k].qlType)
  }

  /** `$1`, `$2`, ... `$n`. */
  function Placeholders(n: nat): (ps: seq<string>)
    ensures |ps| == n
  {
    seq(n, k requires 0 <= k < n => "$" + NatToString(k + 1))
  }

  /** The positions in the record of the values bound to `$1 ... $n`. */
  function ArgsIndex(n: nat): (ix: seq<nat>)
    ensures |ix| == n
  {
    seq(n, k requires 0 <= k < n => k + 1)
  }

  const CreatePrefix := "BEGIN TRANSACTION;create table "

  /** Reference text of `GetCreateTableSQL`. */
  function CreateTableSQL(table: string, cols: seq<ColumnDef>): string {
    CreatePrefix + table + " (" + Join(ColumnDefinitions(cols), ",") + ");COMMIT;"
  }

  const InsertPrefix := "BEGIN TRANSACTION;insert into "

  /** Reference text of `GetInsertSQL`. */
  function InsertSQL(m: BaseModel): string {
    InsertPrefix + m.tableName + " (" + Join(DbTags(m.columns), ",") + ")"
      + "values (" + Join(Placeholders(|m.columns|), ",") + ")" + ";COMMIT;"
  }

  /** Reference text of `GetSelectSQL`. */
  function SelectSQL(m: BaseModel): string {
    "select id()," + Join(DbTags(m.columns), ",") + " from " + m.tableName
  }

  /** `GetCreateTableSQL`, as the builder loop writes it. */
  method GetCreateTableSQL(m: BaseModel) returns (query: string)
    ensures query == CreateTableSQL(m.tableName, m.columns)
  {
    var defs := ColumnDefinitions(m.columns);
    var head := "BEGIN TRANSACTION;" + ("create table " + m.tableName + " (");
    var body := "";
    for i := 0 to |m.columns|
      invariant body == JoinedSoFar(defs, i, ",")
    {
      JoinedSoFarStep(defs, i, ",");
      body := body + (m.columns[i].name + " ");
      body := body + m.columns[i].qlType;
      assert body == JoinedSoFar(defs, i, ",") + defs[i];
      if i < |m.columns| - 1 {
        body := body + ",";
      }
    }
    JoinedSoFarAll(defs, ",");
    query := head + body + ");" + "COMMIT;";
    CreateTableAssembly(m.tableName, body);
  }

  /** The pieces the builder writes around the column list make up the statement. */
  lemma CreateTableAssembly(table: string, body: string)
    ensures "BEGIN TRANSACTION;" + ("create table " + table + " (") + body + ");" + "COMMIT;"
      == CreatePrefix + table + " (" + body + ");COMMIT;"
  {
    assert "BEGIN TRANSACTION;" + "create table " == CreatePrefix;
    assert ");" + "COMMIT;" == ");COMMIT;";
  }

  /** `GetInsertSQL`: the column list and the placeholder list are written side by
      side, and `argsIndex` records which record field feeds each placeholder. */
  method GetInsertSQL(m: BaseModel) returns (argsIndex: seq<nat>, query: string)
    ensures argsIndex == ArgsIndex(|m.columns|)
    ensures query == InsertSQL(m)
  {
    var tags, ps := DbTags(m.columns), Placeholders(|m.columns|);
    var names := "";
    var values := "";
    argsIndex := [];
    for i := 0 to |m.columns|
      invariant names == JoinedSoFar(tags, i, ",")
      invariant values == JoinedSoFar(ps, i, ",")
      invariant argsIndex == ArgsIndex(i)
    {
      JoinedSoFarStep(tags, i, ",");
      JoinedSoFarStep(ps, i, ",");
      assert ArgsIndex(i) + [i + 1] == ArgsIndex(i + 1);
      argsIndex := argsIndex + [i + 1];
      names := names + m.columns[i].name;
      values := values + ("$" + NatToString(|argsIndex|));
      assert names == JoinedSoFar(tags, i, ",") + tags[i];
      assert values == JoinedSoFar(ps, i, ",") + ps[i];
      if i < |m.columns| - 1 {
        names := names + ",";
        values := values + ",";
      }
    }
    JoinedSoFarAll(tags, ",");
    JoinedSoFarAll(ps, ",");
    query := InsertPrefix + m.tableName + " (" + names + ")" + ("values (" + values + ")") + ";COMMIT;";
    InsertAssembly(m.tableName, names, values);
  }

  /** The pieces the builder writes around the two lists make up the statement. */
  lemma InsertAssembly(table: string, names: string, values: string)
    ensures InsertPrefix + table + " (" + names + ")" + ("values (" + values + ")") + ";COMMIT;"
      == InsertPrefix + table + " (" + names + ")" + "values (" + values + ")" + ";COMMIT;"
  {
  }

  /** `GetSelectSQL`. */
  method GetSelectSQL(m: BaseModel) returns (query: string)
    ensures query == SelectSQL(m)
  {
    var tags := DbTags(m.columns);
    var names := "";
    for i := 0 to |m.columns|
      invariant names == JoinedSoFar(tags, i, ",")
    {
      JoinedSoFarStep(tags, i, ",");
      names := names + m.columns[i].name;
      if i < |m.columns| - 1 {
        names := names + ",";
      }
    }
    JoinedSoFarAll(tags, ",");
    query := "select id()," + names + " from " + m.tableName;
  }

  // ------------------------------------------------------------ what they mean

  predicate CommaFree(s: string) { ',' !in s }

  predicate PlainColumns(cols: seq<ColumnDef>) {
    forall k :: 0 <= k < |cols| ==> CommaFree(cols[k].name) && ' ' !in cols[k].name && CommaFree(cols[k].qlType)
  }

  /** The CREATE TABLE body lists every column once, in order: cutting it at the
      commas gives one definition per column, whose first word is the column name
      and whose remainder is the mapped type. */
  lemma CreateTableDeclaresEachColumn(table: string, cols: seq<ColumnDef>)
    requires |cols| > 0 && PlainColumns(cols)
    ensures var defs := Split(Join(ColumnDefinitions(cols), ","), ',');
      |defs| == |cols|
      && forall k :: 0 <= k < |cols| ==>
           FirstToken(defs[k]) == cols[k].name && defs[k] == cols[k].name + " " + cols[k].qlType
  {
    var defs := ColumnDefinitions(cols);
    forall k | 0 <= k < |defs| ensures ',' !in defs[k] {
      assert defs[k] == cols[k].name + " " + cols[k].qlType;
    }
    SplitJoin(defs, ',');
    forall k | 0 <= k < |cols| ensures FirstToken(defs[k]) == cols[k].name {
      FirstTokenBeforeBlank(cols[k].name, cols[k].qlType);
    }
  }

  /** Placeholder `$k` carries the number of the record field bound to it, and no
      two placeholders are the same. */
  lemma PlaceholdersNumberTheArguments(n: nat)
    ensures forall k :: 0 <= k < n ==>
      |Placeholders(n)[k]| > 1 && Placeholders(n)[k][0] == '$'
      && (forall i :: 1 <= i < |Placeholders(n)[k]| ==> IsDigit(Placeholders(n)[k][i]))
      && ParseNat(Placeholders(n)[k][1..]) == ArgsIndex(n)[k]
    ensures Collections.Distinct(Placeholders(n))
  {
    var ps := Placeholders(n);
    forall k | 0 <= k < n
      ensures |ps[k]| > 1 && ps[k][0] == '$'
      ensures forall i :: 1 <= i < |ps[k]| ==> IsDigit(ps[k][i])
      ensures ParseNat(ps[k][1..]) == ArgsIndex(n)[k]
    {
      assert ps[k][1..] == NatToString(k + 1);
      ParseNatToString(k + 1);
    }
    forall i, j | 0 <= i < j < n ensures ps[i] != ps[j] {
      NatToStringInjective(i + 1, j + 1);
      assert ps[i][1..] == NatToString(i + 1);
      assert ps[j][1..] == NatToString(j + 1);
    }
  }

  /** For an accepted declaration, the INSERT names the columns in field order and
      binds column `k` to record field `argsIndex[k]`, the very field that
      declared it; so the k-th column name and the k-th placeholder line up. */
  lemma InsertBindsEachColumnToItsField(rt: RecordType, toSnake: string -> string)
    requires Validate(rt, toSnake).Ok?
    requires PlainColumns(Validate(rt, toSnake).value.columns)
    ensures var m := ModelOf(rt, toSnake, Validate(rt, toSnake).value);
      var n := |m.columns|;
      n > 0 ==>
        Split(Join(DbTags(m.columns), ","), ',') == DbTags(m.columns)
        && Split(Join(Placeholders(n), ","), ',') == Placeholders(n)
        && forall k :: 0 <= k < n ==>
             ArgsIndex(n)[k] < |rt.fields|
             && FieldAccepted(rt.fields[ArgsIndex(n)[k]], toSnake)
             && DbTags(m.columns)[k] == rt.fields[ArgsIndex(n)[k]].qlTag.value
  {
    var m := ModelOf(rt, toSnake, Validate(rt, toSnake).value);
    var n := |m.columns|;
    if n > 0 {
      var tags := DbTags(m.columns);
      forall k | 0 <= k < n ensures ',' !in tags[k] {
        assert tags[k] == m.columns[k].name;
      }
      SplitJoin(tags, ',');
      var ps := Placeholders(n);
      forall k | 0 <= k < n ensures ',' !in ps[k] {
        PlaceholdersNumberTheArguments(n);
        assert ps[k] == "$" + NatToString(k + 1);
      }
      SplitJoin(ps, ',');
    }
  }

  /** The SELECT projects `id()` first and then the columns in field order, which
      is the order of the record's fields. */
  lemma SelectProjectsRecordLayout(rt: RecordType, toSnake: string -> string)
    requires Validate(rt, toSnake).Ok? && |rt.fields| > 1
    requires PlainColumns(Validate(rt, toSnake).value.columns)
    ensures var m := ModelOf(rt, toSnake, Validate(rt, toSnake).value);
      var proj := ["id()"] + DbTags(m.columns);
      SelectSQL(m) == "select " + Join(proj, ",") + " from " + m.tableName
      && Split(Join(proj, ","), ',') == proj
      && |proj| == |rt.fields|
      && forall k :: 1 <= k < |rt.fields| ==> proj[k] == rt.fields[k].qlTag.value
  {
    var d := Validate(rt, toSnake).value;
    var m := ModelOf(rt, toSnake, d);
    assert m.columns == d.columns;
    SelectProjection(m);
    var proj := ["id()"] + DbTags(d.columns);
    forall k | 1 <= k < |rt.fields| ensures proj[k] == rt.fields[k].qlTag.value {
      assert proj[k] == DbTags(d.columns)[k - 1] == d.columns[k - 1].name;
    }
  }

  /** The SELECT text is `select`, the comma-joined projection, and the table; the
      projection cuts back into its names at the commas. */
  lemma SelectProjection(m: BaseModel)
    requires |m.columns| > 0 && PlainColumns(m.columns)
    ensures var proj := ["id()"] + DbTags(m.columns);
      SelectSQL(m) == "select " + Join(proj, ",") + " from " + m.tableName
      && Split(Join(proj, ","), ',') == proj
  {
    var tags := DbTags(m.columns);
    var proj := ["id()"] + tags;
    assert proj[1..] == tags;
    JoinUnfold(proj, ",");
    assert "select id()," == "select " + "id()" + ",";
    forall k | 0 <= k < |proj| ensures ',' !in proj[k] {
      if k > 0 {
        assert proj[k] == m.columns[k - 1].name;
      }
    }
    SplitJoin(proj, ',');
  }

  /** A record with no field besides `id` yields `select id(), from T`: the comma
      after `id()` is written unconditionally. */
  lemma SelectWithoutColumns(m: BaseModel)
    requires |m.columns| == 0
    ensures SelectSQL(m) == "select id(), from " + m.tableName
  {
  }
}
